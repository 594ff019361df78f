/** Difficulty retargeting in wrapping 256-bit arithmetic. */
module Pow {
  import opened Arith
  import opened Compact

  datatype PowParams = PowParams(
    powLimit: int,
    powTargetTimespan: int,
    powTargetSpacing: int,
    powAllowMinDifficultyBlocks: bool,
    powNoRetargeting: bool,
    enforceBip94: bool)

  const TWO_WEEKS: int := 14 * 24 * 60 * 60
  const TEN_MINUTES: int := 600
  const LIMIT_224: int := 0xffff_ffff_ffff_ffff_ffff_ffff_ffff_ffff_ffff_ffff_ffff_ffff_ffff_ffff

  const MAINNET: PowParams := PowParams(LIMIT_224, TWO_WEEKS, TEN_MINUTES, false, false, false)
  const TESTNET: PowParams := PowParams(LIMIT_224, TWO_WEEKS, TEN_MINUTES, true, false, false)
  const TESTNET4: PowParams := PowParams(LIMIT_224, TWO_WEEKS, TEN_MINUTES, true, false, true)
  const SIGNET: PowParams := PowParams(
    0x377ae00_0000_0000_0000_0000_0000_0000_0000_0000_0000_0000_0000_0000_0000,
    TWO_WEEKS, TEN_MINUTES, false, false, false)
  const REGTEST: PowParams := PowParams(TWO_256 / 2 - 1, 24 * 60 * 60, TEN_MINUTES, true, true, false)

  predicate ParamsOk(params: PowParams) {
    0 <= params.powLimit < TWO_256 && params.powTargetTimespan > 0
    && 0 < params.powTargetSpacing <= params.powTargetTimespan
  }

  /** Scaling any target within the limit by the longest timespan stays below 2^256. */
  predicate Headroom(params: PowParams) {
    params.powLimit * (4 * params.powTargetTimespan) < TWO_256
  }

  type Bits = b: int | 0 <= b < 0x1_0000_0000 witness 0

  function Interval(params: PowParams): int
    requires params.powTargetSpacing > 0
  {
    params.powTargetTimespan / params.powTargetSpacing
  }

  function Min(a: int, b: int): int {
    if a > b then b else a
  }

  /** Multiplying and dividing a target by timespans, wrapping at 2^256. */
  function ScaleTarget(target: int, factor: int, timespan: int): int
    requires timespan > 0
  {
    ((target * factor) % TWO_256) / timespan
  }

  function ClampTimespan(actual: int, timespan: int): int {
    var low := if actual < timespan / 4 then timespan / 4 else actual;
    if low > timespan * 4 then timespan * 4 else low
  }

  function EncodeTarget(target: int): (bits: Bits)
    requires 0 <= target < TWO_256
  {
    CompactRounds(target);
    GetCompact(target)
  }

  lemma ScaleRange(target: int, factor: int, timespan: int)
    requires timespan > 0
    ensures 0 <= ScaleTarget(target, factor, timespan) < TWO_256
  {
    DivBounds((target * factor) % TWO_256, timespan);
  }

  function CalculateNextWorkRequired(
      currentBits: Bits, firstBits: Bits, firstBlockTime: int, lastBlockTime: int, params: PowParams): (bits: Bits)
    requires ParamsOk(params)
  {
    if params.powNoRetargeting then currentBits
    else
      var actual := ClampTimespan(lastBlockTime - firstBlockTime, params.powTargetTimespan);
      var base := SetCompact(if params.enforceBip94 then firstBits else currentBits).target;
      var scaled := ScaleTarget(base, actual, params.powTargetTimespan);
      ScaleRange(base, actual, params.powTargetTimespan);
      EncodeTarget(Min(scaled, params.powLimit))
  }

  function GetNextWorkRequired(
      lastHeight: int, lastBits: Bits, lastTime: int, firstTime: int, firstBits: Bits, blockTime: int,
      lastNonSpecialBits: Bits, params: PowParams): (bits: Bits)
    requires ParamsOk(params)
  {
    IntervalPositive(params);
    if (lastHeight + 1) % Interval(params) != 0 then
      if params.powAllowMinDifficultyBlocks then
        if blockTime > lastTime + params.powTargetSpacing * 2 then EncodeTarget(params.powLimit) else lastNonSpecialBits
      else lastBits
    else CalculateNextWorkRequired(lastBits, firstBits, firstTime, lastTime, params)
  }

  lemma IntervalPositive(params: PowParams)
    requires ParamsOk(params)
    ensures Interval(params) >= 1
  {
    var q := params.powTargetTimespan / params.powTargetSpacing;
    assert params.powTargetTimespan == q * params.powTargetSpacing + params.powTargetTimespan % params.powTargetSpacing;
    ProductBound(q - 1, params.powTargetSpacing);
  }

  /** The easiest or hardest target that a timespan allows, after the round trip through compact form. */
  function ReachableTarget(oldBits: Bits, timespan: int, params: PowParams): int
    requires ParamsOk(params)
  {
    var scaled := ScaleTarget(SetCompact(oldBits).target, timespan, params.powTargetTimespan);
    ScaleRange(SetCompact(oldBits).target, timespan, params.powTargetTimespan);
    SetCompact(EncodeTarget(Min(scaled, params.powLimit))).target
  }

  predicate PermittedDifficultyTransition(params: PowParams, height: int, oldBits: Bits, newBits: Bits)
    requires ParamsOk(params)
  {
    IntervalPositive(params);
    if params.powAllowMinDifficultyBlocks then true
    else if height % Interval(params) == 0 then
      var observed := SetCompact(newBits).target;
      && observed <= ReachableTarget(oldBits, params.powTargetTimespan * 4, params)
      && ReachableTarget(oldBits, params.powTargetTimespan / 4, params) <= observed
    else oldBits == newBits
  }

  /** The range check that every accepted header passes. */
  predicate InRange(bits: Bits, params: PowParams) {
    var d := SetCompact(bits);
    !d.negative && d.target != 0 && !d.overflow && d.target <= params.powLimit
  }

  // ---------------------------------------------------------------------
  // No wrapping on any retargeting network
  // ---------------------------------------------------------------------

  /** The one network without headroom never retargets. */
  lemma RetargetingNetworksHaveHeadroom()
    ensures Headroom(MAINNET) && Headroom(TESTNET) && Headroom(TESTNET4) && Headroom(SIGNET)
    ensures !Headroom(REGTEST) && REGTEST.powNoRetargeting && REGTEST.powAllowMinDifficultyBlocks
    ensures ParamsOk(MAINNET) && ParamsOk(TESTNET) && ParamsOk(TESTNET4) && ParamsOk(SIGNET) && ParamsOk(REGTEST)
  {
  }

  /** Signet's limit leaves less than five parts per million. */
  lemma SignetIsTight()
    ensures (TWO_256 - SIGNET.powLimit * (4 * SIGNET.powTargetTimespan)) * 1_000_000 < 5 * TWO_256
    ensures !Headroom(SIGNET.(powLimit := SIGNET.powLimit + SIGNET.powLimit / 200_000))
  {
  }

  lemma ClampBounds(actual: int, timespan: int)
    requires timespan > 0
    ensures 0 <= timespan / 4 <= ClampTimespan(actual, timespan) <= 4 * timespan
  {
  }

  /** Within the limit nothing wraps: the scaled target is the exact quotient. */
  lemma ScaleIsExact(target: int, factor: int, params: PowParams)
    requires ParamsOk(params) && Headroom(params)
    requires 0 <= target <= params.powLimit && 0 <= factor <= 4 * params.powTargetTimespan
    ensures ScaleTarget(target, factor, params.powTargetTimespan) == (target * factor) / params.powTargetTimespan
  {
    MulNonneg(target, factor);
    MulMonotone(target, params.powLimit, factor);
    MulMonotone(factor, 4 * params.powTargetTimespan, params.powLimit);
    assert factor * params.powLimit == params.powLimit * factor;
    assert (4 * params.powTargetTimespan) * params.powLimit == params.powLimit * (4 * params.powTargetTimespan);
    UniqueModulus(target * factor, 0, target * factor, TWO_256);
  }

  lemma DivMonotone(a: int, b: int, m: int)
    requires 0 <= a <= b && m > 0
    ensures a / m <= b / m
  {
    var q := a / m;
    FloorMultiple(a, m);
    FloorGreatest(b, m, q);
    FloorMultiple(b, m);
    assert (q - b / m) * m == q * m - (b / m) * m;
    ProductBound(q - b / m, m);
  }

  lemma ScaleMonotone(target: int, factor: int, more: int, params: PowParams)
    requires ParamsOk(params) && Headroom(params)
    requires 0 <= target <= params.powLimit && 0 <= factor <= more <= 4 * params.powTargetTimespan
    ensures ScaleTarget(target, factor, params.powTargetTimespan) <= ScaleTarget(target, more, params.powTargetTimespan)
  {
    ScaleIsExact(target, factor, params);
    ScaleIsExact(target, more, params);
    MulNonneg(target, factor);
    MulMonotone(factor, more, target);
    assert factor * target == target * factor && more * target == target * more;
    DivMonotone(target * factor, target * more, params.powTargetTimespan);
  }

  /** Capping and encoding preserve order. */
  lemma EncodedOrder(a: int, b: int, limit: int)
    requires 0 <= a <= b < TWO_256 && 0 <= limit < TWO_256
    ensures SetCompact(EncodeTarget(Min(a, limit))).target <= SetCompact(EncodeTarget(Min(b, limit))).target
  {
    CompactRounds(Min(a, limit));
    CompactRounds(Min(b, limit));
    RoundDownMonotone(Min(a, limit), Min(b, limit));
  }

  /** A target that a timespan between the extremes reaches lies between the extreme targets. */
  lemma ReachableBetween(oldBits: Bits, timespan: int, params: PowParams)
    requires ParamsOk(params) && Headroom(params) && SetCompact(oldBits).target <= params.powLimit
    requires params.powTargetTimespan / 4 <= timespan <= params.powTargetTimespan * 4
    ensures ReachableTarget(oldBits, params.powTargetTimespan / 4, params)
         <= ReachableTarget(oldBits, timespan, params)
         <= ReachableTarget(oldBits, params.powTargetTimespan * 4, params)
  {
    var t, low, high := SetCompact(oldBits).target, params.powTargetTimespan / 4, params.powTargetTimespan * 4;
    var span := params.powTargetTimespan;
    ScaleRange(t, low, span);
    ScaleRange(t, timespan, span);
    ScaleRange(t, high, span);
    ScaleMonotone(t, low, timespan, params);
    ScaleMonotone(t, timespan, high, params);
    EncodedOrder(ScaleTarget(t, low, span), ScaleTarget(t, timespan, span), params.powLimit);
    EncodedOrder(ScaleTarget(t, timespan, span), ScaleTarget(t, high, span), params.powLimit);
  }

  /** Keeping the time keeps the target, bit for bit. */
  lemma UnchangedTarget(oldBits: Bits, params: PowParams)
    requires ParamsOk(params) && Headroom(params) && InRange(oldBits, params)
    ensures ReachableTarget(oldBits, params.powTargetTimespan, params) == SetCompact(oldBits).target
  {
    var t, span := SetCompact(oldBits).target, params.powTargetTimespan;
    ScaleIsExact(t, span, params);
    CancelFactor(t, span);
    DecodedIsExact(oldBits);
    CompactRounds(t);
  }

  /** On every network without the min-difficulty rule, the required bits are always a permitted transition from bits
      that pass the range check. Under BIP94 the period's first and last blocks carry the same bits there. */
  lemma NextWorkIsPermitted(
      lastHeight: int, lastBits: Bits, lastTime: int, firstTime: int, firstBits: Bits, blockTime: int,
      lastNonSpecialBits: Bits, params: PowParams)
    requires ParamsOk(params) && Headroom(params) && InRange(lastBits, params)
    requires !params.powAllowMinDifficultyBlocks
    requires params.enforceBip94 ==> firstBits == lastBits
    ensures PermittedDifficultyTransition(
              params, lastHeight + 1, lastBits,
              GetNextWorkRequired(
                lastHeight, lastBits, lastTime, firstTime, firstBits, blockTime, lastNonSpecialBits, params))
  {
    IntervalPositive(params);
    if (lastHeight + 1) % Interval(params) == 0 {
      if params.powNoRetargeting {
        UnchangedTarget(lastBits, params);
        ReachableBetween(lastBits, params.powTargetTimespan, params);
      } else {
        var actual := ClampTimespan(lastTime - firstTime, params.powTargetTimespan);
        ClampBounds(lastTime - firstTime, params.powTargetTimespan);
        ReachableBetween(lastBits, actual, params);
      }
    }
  }

  /** The required bits decode to a target within the limit, so an accepted chain never leaves it. */
  lemma NextWorkStaysWithinLimit(
      lastHeight: int, lastBits: Bits, lastTime: int, firstTime: int, firstBits: Bits, blockTime: int,
      lastNonSpecialBits: Bits, params: PowParams)
    requires ParamsOk(params) && InRange(lastBits, params) && InRange(lastNonSpecialBits, params)
    ensures var d := SetCompact(GetNextWorkRequired(
              lastHeight, lastBits, lastTime, firstTime, firstBits, blockTime, lastNonSpecialBits, params));
            !d.negative && !d.overflow && d.target <= params.powLimit
  {
    var span := params.powTargetTimespan;
    var base := SetCompact(if params.enforceBip94 then firstBits else lastBits).target;
    var used := ClampTimespan(lastTime - firstTime, span);
    ScaleRange(base, used, span);
    EncodedWithinLimit(ScaleTarget(base, used, span), params.powLimit);
    EncodedWithinLimit(params.powLimit, params.powLimit);
  }

  lemma EncodedWithinLimit(target: int, limit: int)
    requires 0 <= target < TWO_256 && 0 <= limit < TWO_256
    ensures var d := SetCompact(EncodeTarget(Min(target, limit)));
            !d.negative && !d.overflow && d.target <= limit
  {
    CompactRounds(Min(target, limit));
    RoundDownBounds(Min(target, limit));
  }

  // ---------------------------------------------------------------------
  // What a retarget does to the target
  // ---------------------------------------------------------------------

  /** The bits that a retarget starts from: under BIP94 those of the period's first block, else those of its last. */
  ghost function BaseBits(lastBits: Bits, firstBits: Bits, params: PowParams): Bits {
    if params.enforceBip94 then firstBits else lastBits
  }

  /** The next block opens a period on a network that retargets, and what it starts from passes the range check. */
  ghost predicate Retargets(lastHeight: int, lastBits: Bits, firstBits: Bits, params: PowParams) {
    && ParamsOk(params) && Headroom(params) && !params.powNoRetargeting
    && InRange(BaseBits(lastBits, firstBits, params), params)
    && IsBoundary(lastHeight, params)
  }

  ghost predicate IsBoundary(lastHeight: int, params: PowParams)
    requires ParamsOk(params)
  {
    IntervalPositive(params);
    (lastHeight + 1) % Interval(params) == 0
  }

  ghost function NextTarget(
      lastHeight: int, lastBits: Bits, lastTime: int, firstTime: int, firstBits: Bits, blockTime: int,
      lastNonSpecialBits: Bits, params: PowParams): int
    requires ParamsOk(params)
  {
    SetCompact(GetNextWorkRequired(
      lastHeight, lastBits, lastTime, firstTime, firstBits, blockTime, lastNonSpecialBits, params)).target
  }

  /** The new target is the old one times the time the period took, over the time it should have taken, capped by the
      limit and rounded down to what compact form can say. */
  lemma RetargetFormula(
      lastHeight: int, lastBits: Bits, lastTime: int, firstTime: int, firstBits: Bits, blockTime: int,
      lastNonSpecialBits: Bits, params: PowParams)
    requires Retargets(lastHeight, lastBits, firstBits, params)
    requires params.powTargetTimespan / 4 <= lastTime - firstTime <= 4 * params.powTargetTimespan
    ensures var target, span := SetCompact(BaseBits(lastBits, firstBits, params)).target, params.powTargetTimespan;
            NextTarget(lastHeight, lastBits, lastTime, firstTime, firstBits, blockTime, lastNonSpecialBits, params)
            == CappedTarget(target * (lastTime - firstTime) / span, params.powLimit)
  {
    NextIsReachable(lastHeight, lastBits, lastTime, firstTime, firstBits, blockTime, lastNonSpecialBits, params);
    ReachableIs(BaseBits(lastBits, firstBits, params), lastTime - firstTime, params);
  }

  /** However short the period, it counts as a quarter of the timespan; however long, as four of them. */
  lemma RetargetExtremes(
      lastHeight: int, lastBits: Bits, lastTime: int, firstTime: int, firstBits: Bits, blockTime: int,
      lastNonSpecialBits: Bits, params: PowParams)
    requires Retargets(lastHeight, lastBits, firstBits, params)
    ensures var next := NextTarget(
              lastHeight, lastBits, lastTime, firstTime, firstBits, blockTime, lastNonSpecialBits, params);
            var target, span := SetCompact(BaseBits(lastBits, firstBits, params)).target, params.powTargetTimespan;
            && (lastTime - firstTime <= span / 4 ==>
                next == CappedTarget(target * (span / 4) / span, params.powLimit))
            && (lastTime - firstTime >= 4 * span ==> next == CappedTarget(4 * target, params.powLimit))
  {
    NextIsReachable(lastHeight, lastBits, lastTime, firstTime, firstBits, blockTime, lastNonSpecialBits, params);
    ReachableIs(BaseBits(lastBits, firstBits, params), params.powTargetTimespan / 4, params);
    ReachableAtMost(BaseBits(lastBits, firstBits, params), params);
  }

  ghost function CappedTarget(target: int, limit: int): int {
    if target < 0 || limit < 0 then 0 else RoundDown(if target <= limit then target else limit)
  }

  lemma ReachableIs(oldBits: Bits, timespan: int, params: PowParams)
    requires ParamsOk(params) && Headroom(params) && SetCompact(oldBits).target <= params.powLimit
    requires 0 <= timespan <= 4 * params.powTargetTimespan
    ensures ReachableTarget(oldBits, timespan, params)
         == CappedTarget(SetCompact(oldBits).target * timespan / params.powTargetTimespan, params.powLimit)
  {
    var t, span := SetCompact(oldBits).target, params.powTargetTimespan;
    ScaleRange(t, timespan, span);
    ScaleIsExact(t, timespan, params);
    CompactRounds(Min(ScaleTarget(t, timespan, span), params.powLimit));
  }

  lemma ReachableAtMost(oldBits: Bits, params: PowParams)
    requires ParamsOk(params) && Headroom(params) && SetCompact(oldBits).target <= params.powLimit
    ensures ReachableTarget(oldBits, 4 * params.powTargetTimespan, params)
         == CappedTarget(4 * SetCompact(oldBits).target, params.powLimit)
  {
    ReachableIs(oldBits, 4 * params.powTargetTimespan, params);
    Quadruple(SetCompact(oldBits).target, params.powTargetTimespan);
  }

  lemma Quadruple(target: int, timespan: int)
    requires timespan > 0
    ensures target * (4 * timespan) / timespan == 4 * target
  {
    assert target * (4 * timespan) == (4 * target) * timespan;
    CancelFactor(4 * target, timespan);
  }

  lemma NextIsReachable(
      lastHeight: int, lastBits: Bits, lastTime: int, firstTime: int, firstBits: Bits, blockTime: int,
      lastNonSpecialBits: Bits, params: PowParams)
    requires Retargets(lastHeight, lastBits, firstBits, params)
    ensures NextTarget(lastHeight, lastBits, lastTime, firstTime, firstBits, blockTime, lastNonSpecialBits, params)
         == ReachableTarget(
              BaseBits(lastBits, firstBits, params), ClampTimespan(lastTime - firstTime, params.powTargetTimespan),
              params)
  {
  }

  lemma ReachableMonotone(oldBits: Bits, timespan: int, more: int, params: PowParams)
    requires ParamsOk(params) && Headroom(params) && SetCompact(oldBits).target <= params.powLimit
    requires 0 <= timespan <= more <= 4 * params.powTargetTimespan
    ensures ReachableTarget(oldBits, timespan, params) <= ReachableTarget(oldBits, more, params)
  {
    var t, span := SetCompact(oldBits).target, params.powTargetTimespan;
    ScaleRange(t, timespan, span);
    ScaleRange(t, more, span);
    ScaleMonotone(t, timespan, more, params);
    EncodedOrder(ScaleTarget(t, timespan, span), ScaleTarget(t, more, span), params.powLimit);
  }

  /** A slower period never makes mining harder. */
  lemma SlowerIsEasier(
      lastHeight: int, lastBits: Bits, lastTime: int, firstTime: int, lastTime': int, firstTime': int,
      firstBits: Bits, blockTime: int, lastNonSpecialBits: Bits, params: PowParams)
    requires Retargets(lastHeight, lastBits, firstBits, params)
    requires lastTime - firstTime <= lastTime' - firstTime'
    ensures NextTarget(lastHeight, lastBits, lastTime, firstTime, firstBits, blockTime, lastNonSpecialBits, params)
         <= NextTarget(lastHeight, lastBits, lastTime', firstTime', firstBits, blockTime, lastNonSpecialBits, params)
  {
    var span := params.powTargetTimespan;
    ClampBounds(lastTime - firstTime, span);
    ClampBounds(lastTime' - firstTime', span);
    NextIsReachable(lastHeight, lastBits, lastTime, firstTime, firstBits, blockTime, lastNonSpecialBits, params);
    NextIsReachable(lastHeight, lastBits, lastTime', firstTime', firstBits, blockTime, lastNonSpecialBits, params);
    ReachableMonotone(
      BaseBits(lastBits, firstBits, params), ClampTimespan(lastTime - firstTime, span),
      ClampTimespan(lastTime' - firstTime', span), params);
  }

  /** A period that took at least the timespan does not make mining harder, one that took at most that does not make
      it easier, and one that took exactly that changes nothing. */
  lemma RetargetDirection(
      lastHeight: int, lastBits: Bits, lastTime: int, firstTime: int, firstBits: Bits, blockTime: int,
      lastNonSpecialBits: Bits, params: PowParams)
    requires Retargets(lastHeight, lastBits, firstBits, params)
    ensures var next := NextTarget(
              lastHeight, lastBits, lastTime, firstTime, firstBits, blockTime, lastNonSpecialBits, params);
            var base := SetCompact(BaseBits(lastBits, firstBits, params)).target;
            && (lastTime - firstTime >= params.powTargetTimespan ==> next >= base)
            && (lastTime - firstTime <= params.powTargetTimespan ==> next <= base)
  {
    var base := BaseBits(lastBits, firstBits, params);
    var span := params.powTargetTimespan;
    var used := ClampTimespan(lastTime - firstTime, span);
    ClampBounds(lastTime - firstTime, span);
    NextIsReachable(lastHeight, lastBits, lastTime, firstTime, firstBits, blockTime, lastNonSpecialBits, params);
    UnchangedTarget(base, params);
    if used >= span {
      ReachableMonotone(base, span, used, params);
    }
    if used <= span {
      ReachableMonotone(base, used, span, params);
    }
  }

  /** Between boundaries nothing is computed. With the min-difficulty rule a block more than two spacings after its
      parent may be as easy as any bits allow; one that is not takes the last bits that were not given away. */
  lemma BetweenBoundaries(
      lastHeight: int, lastBits: Bits, lastTime: int, firstTime: int, firstBits: Bits, blockTime: int,
      lastNonSpecialBits: Bits, params: PowParams)
    requires ParamsOk(params) && !IsBoundary(lastHeight, params)
    ensures var bits := GetNextWorkRequired(
              lastHeight, lastBits, lastTime, firstTime, firstBits, blockTime, lastNonSpecialBits, params);
            && (!params.powAllowMinDifficultyBlocks ==> bits == lastBits)
            && (params.powAllowMinDifficultyBlocks && blockTime <= lastTime + 2 * params.powTargetSpacing ==>
                bits == lastNonSpecialBits)
            && (params.powAllowMinDifficultyBlocks && blockTime > lastTime + 2 * params.powTargetSpacing ==>
                && SetCompact(bits).target == RoundDown(params.powLimit)
                && forall other: Bits :: InRange(other, params) ==> SetCompact(other).target <= SetCompact(bits).target)
  {
    if params.powAllowMinDifficultyBlocks && blockTime > lastTime + 2 * params.powTargetSpacing {
      CompactRounds(params.powLimit);
      forall other: Bits | InRange(other, params)
        ensures SetCompact(other).target <= SetCompact(EncodeTarget(params.powLimit)).target
      {
        EncodingIsBest(params.powLimit, other);
      }
    }
  }

  /** The permitted range is tight: its ends are the targets after the fastest and the slowest period, and between
      boundaries only the same bits are permitted. */
  lemma PermittedIff(height: int, oldBits: Bits, newBits: Bits, params: PowParams)
    requires ParamsOk(params) && Headroom(params) && InRange(oldBits, params)
    requires !params.powAllowMinDifficultyBlocks && !params.powNoRetargeting
    ensures PermittedDifficultyTransition(params, height, oldBits, newBits) <==>
            if IsBoundary(height - 1, params) then
              NextTarget(height - 1, oldBits, 0, 0, oldBits, 0, oldBits, params)
              <= SetCompact(newBits).target
              <= NextTarget(height - 1, oldBits, 4 * params.powTargetTimespan, 0, oldBits, 0, oldBits, params)
            else newBits == oldBits
  {
    var span := params.powTargetTimespan;
    if IsBoundary(height - 1, params) {
      NextIsReachable(height - 1, oldBits, 0, 0, oldBits, 0, oldBits, params);
      NextIsReachable(height - 1, oldBits, 4 * span, 0, oldBits, 0, oldBits, params);
      assert ClampTimespan(0, span) == span / 4 && ClampTimespan(4 * span, span) == span * 4;
    }
  }

  /** The limit of the main network is the familiar 0x1d00ffff. */
  lemma MainnetLimitBits()
    ensures EncodeTarget(MAINNET.powLimit) == 0x1d00_ffff
    ensures InRange(0x1d00_ffff, MAINNET)
  {
    Bytes256At26();
    FloorAt26();
    SignedLengthIs(LIMIT_224, 29);
    LargeEncoding(LIMIT_224);
    DecodeLarge(0xffff, 29);
  }

  lemma Bytes256At26()
    ensures Bytes256(26) == 0x1_0000_0000_0000_0000_0000_0000_0000_0000_0000_0000_0000_0000_0000
    ensures Bytes256(28) == LIMIT_224 + 1 && Bytes256(29) == 0x100 * (LIMIT_224 + 1)
  {
    Size256();
    Bytes256Sum(26, 2);
    Bytes256Sum(26, 3);
    Bytes256Sum(26, 6);
  }

  lemma FloorAt26()
    ensures LIMIT_224 / Bytes256(26) == 0xffff
  {
    Bytes256At26();
    UniqueModulus(LIMIT_224, 0xffff, Bytes256(26) - 1, Bytes256(26));
  }
}
