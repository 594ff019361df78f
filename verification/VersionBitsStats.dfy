/** Signalling statistics for the period under way, and what they foretell. */
module VersionBitsStats {
  import opened Wrappers
  import opened Chain
  import opened Arith
  import opened VersionBits
  import opened VersionBitsHistory

  datatype Bip9Stats = Bip9Stats(period: int, threshold: int, elapsed: int, count: int, possible: bool)

  /** The block `k` places into the last `n` blocks that end at `idx`, oldest first. */
  ghost function BlockOf(arena: Arena, idx: nat, n: nat, k: nat): (b: nat)
    requires Linked(arena) && idx < |arena| && k < n <= arena[idx].height + 1
    ensures b < |arena| && arena[b].height == arena[idx].height + 1 - n + k
  {
    BackInRange(arena, idx, n - 1 - k);
    Back(arena, idx, n - 1 - k).value
  }

  /** Statistics of the period that contains `idx`: its blocks up to `idx`, those that signalled, one flag per block
      oldest first, and the flag as computed in unsigned 32-bit arithmetic. */
  ghost predicate IsStats(c: Checker, arena: Arena, idx: nat, stats: Bip9Stats, signalling: seq<bool>)
    requires Linked(arena) && CheckerOk(c) && idx < |arena| && RuleOf(c).period > 0
  {
    assert LinkedAt(arena, idx);
    var rule := RuleOf(c);
    var h := arena[idx].height;
    && stats.period == rule.period && stats.threshold == rule.threshold
    && stats.elapsed == h + 1 - PeriodStart(h, rule.period) && 1 <= stats.elapsed <= rule.period
    && stats.elapsed <= h + 1
    && |signalling| == stats.elapsed
    && (forall k :: 0 <= k < |signalling| ==> signalling[k] == Signals(c, arena)(BlockOf(arena, idx, |signalling|, k)))
    && stats.count == Signalling(arena, Signals(c, arena), Some(idx), stats.elapsed)
    && (stats.possible <==> (rule.period - rule.threshold) % U32 >= stats.elapsed - stats.count)
  }

  /** Parameters are unsigned 32-bit numbers. */
  predicate FitsU32(rule: Rule) {
    0 < rule.period < U32 && 0 <= rule.threshold < U32
  }

  /** The flag says whether the remaining blocks can still reach the threshold exactly when the threshold does not
      exceed the period; beyond that the subtraction wraps, and the flag is always set. */
  lemma PossibleMeans(c: Checker, arena: Arena, idx: nat, stats: Bip9Stats, signalling: seq<bool>)
    requires Linked(arena) && CheckerOk(c) && idx < |arena| && FitsU32(RuleOf(c))
    requires IsStats(c, arena, idx, stats, signalling)
    ensures 0 <= stats.count <= stats.elapsed
    ensures stats.threshold <= stats.period ==>
              (stats.possible <==> stats.count + (stats.period - stats.elapsed) >= stats.threshold)
    ensures stats.threshold > stats.period ==>
              stats.possible && stats.count + (stats.period - stats.elapsed) < stats.threshold
  {
    SignallingAtMost(arena, Signals(c, arena), Some(idx), stats.elapsed);
    var d := stats.period - stats.threshold;
    UniqueModulus(d, if d >= 0 then 0 else -1, if d >= 0 then d else d + U32, U32);
  }

  lemma InPeriod(h: int, period: int)
    requires h >= 0 && period > 0
    ensures 1 + h % period == h + 1 - PeriodStart(h, period)
    ensures 1 <= 1 + h % period <= period && 1 + h % period <= h + 1
  {
    PeriodStartIs(h, period);
  }

  /** Without a block nothing has elapsed and nothing is reported as possible. */
  method GetStateStatisticsFor(c: Checker, arena: Arena, idx: Option<nat>, known0: seq<Cache>)
    returns (stats: Bip9Stats, signalling: seq<bool>, known: seq<Cache>)
    requires WellFormed(arena) && CheckerOk(c) && PrevOk(arena, idx) && AuxOk(c, arena, known0)
    requires FitsU32(RuleOf(c))
    ensures idx.None? ==> signalling == [] && stats == Bip9Stats(RuleOf(c).period, RuleOf(c).threshold, 0, 0, false)
    ensures idx.Some? ==> IsStats(c, arena, idx.value, stats, signalling)
    ensures AuxOk(c, arena, known) && (c.KnownBits? ==> known == known0)
  {
    var rule := RuleOf(c);
    known := known0;
    if idx.None? {
      return Bip9Stats(rule.period, rule.threshold, 0, 0, false), [], known;
    }
    assert LinkedAt(arena, idx.value);
    InPeriod(arena[idx.value].height, rule.period);
    var count;
    count, signalling, known := CountBack(c, arena, idx.value, 1 + arena[idx.value].height % rule.period, known);
    var elapsed := |signalling|;
    stats := Bip9Stats(
      rule.period, rule.threshold, elapsed, count, (rule.period - rule.threshold) % U32 >= elapsed - count);
  }

  /** Visits the last `n` blocks, newest first, and flags those that signal. */
  method CountBack(c: Checker, arena: Arena, idx: nat, n: nat, known0: seq<Cache>)
    returns (count: nat, signalling: seq<bool>, known: seq<Cache>)
    requires WellFormed(arena) && CheckerOk(c) && idx < |arena| && AuxOk(c, arena, known0)
    requires 1 <= n <= arena[idx].height + 1
    ensures count == Signalling(arena, Signals(c, arena), Some(idx), n) && |signalling| == n
    ensures forall k :: 0 <= k < n ==> signalling[k] == Signals(c, arena)(BlockOf(arena, idx, n, k))
    ensures AuxOk(c, arena, known) && (c.KnownBits? ==> known == known0)
  {
    count, known := 0, known0;
    signalling := seq(n, _ => false);
    var blocksInPeriod: nat := n;
    var current: nat := idx;
    while blocksInPeriod > 0
      invariant 0 <= blocksInPeriod <= n && |signalling| == n
      invariant AuxOk(c, arena, known) && (c.KnownBits? ==> known == known0)
      invariant blocksInPeriod > 0 ==> current < |arena| && Back(arena, idx, n - blocksInPeriod) == Some(current)
      invariant var ahead := if blocksInPeriod > 0 then Some(current) else None;
                count + Signalling(arena, Signals(c, arena), ahead, blocksInPeriod)
                == Signalling(arena, Signals(c, arena), Some(idx), n)
      invariant forall k :: 0 <= k < blocksInPeriod ==> !signalling[k]
      invariant forall k :: blocksInPeriod <= k < n ==> signalling[k] == Signals(c, arena)(BlockOf(arena, idx, n, k))
    {
      blocksInPeriod := blocksInPeriod - 1;
      assert BlockOf(arena, idx, n, blocksInPeriod) == current;
      var signal;
      signal, known := Condition(c, arena, current, known);
      if signal {
        count := count + 1;
        signalling := signalling[blocksInPeriod := true];
      }
      assert LinkedAt(arena, current);
      if blocksInPeriod == 0 {
        break;
      }
      BackInRange(arena, idx, n - blocksInPeriod);
      BackCompose(arena, idx, n - blocksInPeriod - 1, 1);
      current := arena[current].prev.value;
    }
  }

  lemma {:induction false} SignallingAtMost(arena: Arena, signals: nat -> bool, idx: Option<nat>, n: nat)
    ensures Signalling(arena, signals, idx, n) <= n
    decreases n
  {
    if n > 0 && idx.Some? && idx.value < |arena| {
      SignallingAtMost(arena, signals, arena[idx.value].prev, n - 1);
    }
  }

  /** Counting in two stretches. */
  lemma {:induction false} SignallingSplit(arena: Arena, signals: nat -> bool, p: nat, m: nat, n: nat)
    requires Linked(arena) && p < |arena| && m <= arena[p].height
    ensures Back(arena, p, m).Some?
    ensures Signalling(arena, signals, Some(p), m + n)
         == Signalling(arena, signals, Some(p), m) + Signalling(arena, signals, Back(arena, p, m), n)
    decreases m
  {
    BackInRange(arena, p, m);
    assert LinkedAt(arena, p);
    if m > 0 {
      SignallingSplit(arena, signals, arena[p].prev.value, m - 1, n);
    }
  }

  /** Along a branch, blocks to come can only add their own number to the count. */
  lemma CountGrows(c: Checker, arena: Arena, p: nat, later: nat, elapsed: nat)
    requires Linked(arena) && CheckerOk(c) && p < |arena| && later <= arena[p].height
    ensures Back(arena, p, later).Some?
    ensures var sig := Signals(c, arena);
            var count := Signalling(arena, sig, Back(arena, p, later), elapsed);
            count <= Signalling(arena, sig, Some(p), later + elapsed) <= count + later
  {
    SignallingSplit(arena, Signals(c, arena), p, later, elapsed);
    SignallingAtMost(arena, Signals(c, arena), Some(p), later);
  }

  /** What `possible` foretells.  When it is false, the period cannot lock in on any branch through `idx`; at the end
      of the period it says whether the period locks in, exactly when the threshold does not exceed the period. */
  lemma PossibleForetells(c: Checker, arena: Arena, idx: nat, stats: Bip9Stats, signalling: seq<bool>, p: nat)
    requires Linked(arena) && CheckerOk(c) && FitsU32(RuleOf(c)) && idx < |arena| && p < |arena|
    requires IsStats(c, arena, idx, stats, signalling)
    requires arena[p].height == arena[idx].height + (stats.period - stats.elapsed)
    requires AncestorAt(arena, p, arena[idx].height) == Some(idx)
    ensures (arena[p].height + 1) % stats.period == 0
    ensures !stats.possible ==> Transition(RuleOf(c), arena, Signals(c, arena), p, Started) != LockedIn
    ensures p == idx ==>
              ((stats.possible <==> Transition(RuleOf(c), arena, Signals(c, arena), p, Started) == LockedIn) <==>
               stats.threshold <= stats.period)
  {
    PossibleMeans(c, arena, idx, stats, signalling);
    assert LinkedAt(arena, idx);
    var later := stats.period - stats.elapsed;
    PeriodEndsThere(arena[idx].height, stats.period);
    CountGrows(c, arena, p, later, stats.elapsed);
  }

  lemma PeriodEndsThere(h: int, period: int)
    requires h >= 0 && period > 0
    ensures (PeriodStart(h, period) + period) % period == 0
  {
    PeriodStartIsMultiple(h, period);
    ModulusStep(PeriodStart(h, period), period);
  }
}
