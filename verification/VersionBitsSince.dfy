/** Since which height the current state of a deployment holds. */
module VersionBitsSince {
  import opened Wrappers
  import opened Chain
  import opened Arith
  import opened VersionBits
  import opened VersionBitsHistory

  /** `since` is the first height of the state that holds after `prev`: that state holds from
      `since` on, and at no earlier height of the branch. */
  ghost predicate IsSince(c: Checker, arena: Arena, prev: nat, since: int)
    requires Linked(arena) && CheckerOk(c) && prev < |arena|
  {
    && 0 <= since
    && forall h :: 0 <= h <= arena[prev].height + 1 ==>
         (StateAtHeight(c, arena, prev, h) == StateOf(c, arena, Some(prev)) <==> since <= h)
  }

  ghost predicate HoldsFrom(c: Checker, arena: Arena, prev: nat, from: int)
    requires Linked(arena) && CheckerOk(c) && prev < |arena|
  {
    forall h :: 0 <= from <= h <= arena[prev].height + 1 ==>
      StateAtHeight(c, arena, prev, h) == StateOf(c, arena, Some(prev))
  }

  lemma {:induction false} SinceFromEdge(c: Checker, arena: Arena, prev: nat, since: int)
    requires Linked(arena) && CheckerOk(c) && prev < |arena| && 0 <= since <= arena[prev].height + 1
    requires HoldsFrom(c, arena, prev, since)
    requires since > 0 ==> StateAtHeight(c, arena, prev, since - 1) != StateOf(c, arena, Some(prev))
    ensures IsSince(c, arena, prev, since)
  {
    var current := StateOf(c, arena, Some(prev));
    assert StateAtHeight(c, arena, prev, since) == current;
    forall h | 0 <= h < since ensures StateAtHeight(c, arena, prev, h) != current {
      NeverReturns(c, arena, prev, h, since - 1, since);
    }
  }

  /** A state that was left does not come back. */
  lemma {:induction false} NeverReturns(c: Checker, arena: Arena, prev: nat, h: int, left: int, k: int)
    requires Linked(arena) && CheckerOk(c) && prev < |arena| && 0 <= h <= left <= k <= arena[prev].height + 1
    requires StateAtHeight(c, arena, prev, left) != StateAtHeight(c, arena, prev, k)
    ensures StateAtHeight(c, arena, prev, h) != StateAtHeight(c, arena, prev, k)
  {
    StatesOnlyMoveForward(c, arena, prev, h, left);
    StatesOnlyMoveForward(c, arena, prev, left, k);
  }

  lemma {:induction false} SamePeriod(c: Checker, arena: Arena, prev: nat, base: int, h: int)
    requires Linked(arena) && CheckerOk(c) && Ordinary(c) && prev < |arena| && RuleOf(c).period > 0
    requires 0 < base <= h < base + RuleOf(c).period && h <= arena[prev].height + 1
    requires EndsPeriod(base - 1, RuleOf(c).period)
    ensures StateAtHeight(c, arena, prev, h)
         == PeriodState(RuleOf(c), arena, Signals(c, arena), ParentAt(arena, prev, base))
  {
    var period := RuleOf(c).period;
    StartOfPeriod(base, h, period);
    StateAtPeriodStart(c, arena, prev, h);
  }

  lemma {:induction false} StartOfPeriod(base: int, h: int, period: int)
    requires 0 < base <= h < base + period && period > 0 && EndsPeriod(base - 1, period)
    ensures PeriodStart(h, period) == base
    decreases base
  {
    if base > period {
      StartOfPeriod(base - period, h - period, period);
    }
  }

  lemma {:induction false} SamePeriods(c: Checker, arena: Arena, prev: nat, base: int, from: int)
    requires Linked(arena) && CheckerOk(c) && Ordinary(c) && prev < |arena| && RuleOf(c).period > 0
    requires 0 < base < from <= base + RuleOf(c).period && from <= arena[prev].height + 2
    requires EndsPeriod(base - 1, RuleOf(c).period)
    requires from <= arena[prev].height + 1 ==> HoldsFrom(c, arena, prev, from)
    requires PeriodState(RuleOf(c), arena, Signals(c, arena), ParentAt(arena, prev, base))
          == StateOf(c, arena, Some(prev))
    ensures HoldsFrom(c, arena, prev, base)
  {
    forall h | 0 <= base <= h <= arena[prev].height + 1
      ensures StateAtHeight(c, arena, prev, h) == StateOf(c, arena, Some(prev))
    {
      if h < from {
        SamePeriod(c, arena, prev, base, h);
      }
    }
  }

  /** At a period end no realignment happens. */
  lemma {:induction false} StateAtPeriodEnd(c: Checker, arena: Arena, p: nat)
    requires Linked(arena) && CheckerOk(c) && Ordinary(c) && p < |arena| && RuleOf(c).period > 0
    requires EndsPeriod(arena[p].height, RuleOf(c).period)
    ensures StateOf(c, arena, Some(p)) == PeriodState(RuleOf(c), arena, Signals(c, arena), Some(p))
  {
    assert LinkedAt(arena, p);
    EndsPeriodIsStart(arena[p].height, RuleOf(c).period);
    assert Back(arena, p, 0) == Some(p);
    assert AlignedPrev(arena, Some(p), RuleOf(c).period) == Some(p);
  }

  method GetStateSinceHeightFor(c: Checker, arena: Arena, prev: Option<nat>, cache0: Cache, known0: seq<Cache>)
    returns (since: int, cache: Cache, known: seq<Cache>)
    requires WellFormed(arena) && CheckerOk(c) && PrevOk(arena, prev)
    requires CacheOk(c, arena, cache0) && AuxOk(c, arena, known0)
    ensures prev.None? || !Ordinary(c) ==> since == 0
    ensures prev.Some? && Ordinary(c) ==> IsSince(c, arena, prev.value, since)
    ensures CacheOk(c, arena, cache) && AuxOk(c, arena, known)
  {
    cache, known := cache0, known0;
    var rule := RuleOf(c);
    if rule.beginTime == ALWAYS_ACTIVE || rule.beginTime == NEVER_ACTIVE {
      return 0, cache, known;
    }
    var initialState;
    initialState, cache, known := GetStateFor(c, arena, prev, cache, known);
    if initialState == Defined {
      if prev.Some? {
        DefinedSinceGenesis(c, arena, prev.value);
      }
      return 0, cache, known;
    }
    RulePeriod(c);
    assert prev.Some?;
    var tip := prev.value;
    AlignedEdge(c, arena, tip);
    var aligned := LastPeriodEnd(arena, tip, rule.period);
    var p;
    p, cache, known := WalkToEdge(c, arena, tip, aligned.value, initialState, cache, known);
    since := arena[p].height + 1;
    EdgeIsSince(c, arena, tip, p);
  }

  /** Steps back by whole periods while the state stays the same. */
  method WalkToEdge(
      c: Checker, arena: Arena, tip: nat, start: nat, initialState: ThresholdState, cache0: Cache, known0: seq<Cache>)
    returns (p: nat, cache: Cache, known: seq<Cache>)
    requires WellFormed(arena) && CheckerOk(c) && Ordinary(c) && RuleOf(c).period > 0
    requires tip < |arena| && start < |arena| && PeriodEdge(c, arena, tip, start)
    requires initialState == StateOf(c, arena, Some(tip))
    requires CacheOk(c, arena, cache0) && AuxOk(c, arena, known0)
    ensures p < |arena| && PeriodEdge(c, arena, tip, p)
    ensures var parent := PeriodParent(arena, p, RuleOf(c).period);
            parent.Some? ==> StateOf(c, arena, parent) != initialState
    ensures CacheOk(c, arena, cache) && AuxOk(c, arena, known)
  {
    p, cache, known := start, cache0, known0;
    var rule := RuleOf(c);
    var parent := GetAncestor(arena, p, arena[p].height - rule.period);
    while parent.Some?
      invariant p < |arena| && PeriodEdge(c, arena, tip, p)
      invariant parent == PeriodParent(arena, p, rule.period)
      invariant CacheOk(c, arena, cache) && AuxOk(c, arena, known)
      decreases arena[p].height
    {
      var state;
      state, cache, known := GetStateFor(c, arena, parent, cache, known);
      EdgeDown(c, arena, tip, p);
      if state != initialState {
        break;
      }
      p := parent.value;
      parent := GetAncestor(arena, p, arena[p].height - rule.period);
    }
  }

  /** `p` ends a period on the branch of `tip`, and the state after `tip` holds from the block after `p`. */
  ghost predicate PeriodEdge(c: Checker, arena: Arena, tip: nat, p: nat)
    requires Linked(arena) && CheckerOk(c) && RuleOf(c).period > 0 && tip < |arena| && p < |arena|
  {
    && 0 <= arena[p].height <= arena[tip].height
    && EndsPeriod(arena[p].height, RuleOf(c).period)
    && AncestorAt(arena, tip, arena[p].height) == Some(p)
    && HoldsFrom(c, arena, tip, arena[p].height + 1)
  }

  lemma {:induction false} AlignedEdge(c: Checker, arena: Arena, tip: nat)
    requires Linked(arena) && CheckerOk(c) && Ordinary(c) && RuleOf(c).period > 0 && tip < |arena|
    requires StateOf(c, arena, Some(tip)) != Defined
    ensures AlignedPrev(arena, Some(tip), RuleOf(c).period).Some?
    ensures PeriodEdge(c, arena, tip, AlignedPrev(arena, Some(tip), RuleOf(c).period).value)
  {
    var period, height := RuleOf(c).period, arena[tip].height;
    assert LinkedAt(arena, tip);
    var p := AlignedPrev(arena, Some(tip), period).value;
    BeforeStartEnds(height + 1, period);
    EdgeAt(c, arena, tip, p);
  }

  lemma {:induction false} EdgeAt(c: Checker, arena: Arena, tip: nat, p: nat)
    requires Linked(arena) && CheckerOk(c) && Ordinary(c) && RuleOf(c).period > 0 && tip < |arena| && p < |arena|
    requires 0 <= arena[p].height <= arena[tip].height < arena[p].height + RuleOf(c).period
    requires EndsPeriod(arena[p].height, RuleOf(c).period) && AncestorAt(arena, tip, arena[p].height) == Some(p)
    requires PeriodState(RuleOf(c), arena, Signals(c, arena), Some(p)) == StateOf(c, arena, Some(tip))
    ensures PeriodEdge(c, arena, tip, p)
  {
    SamePeriods(c, arena, tip, arena[p].height + 1, arena[tip].height + 2);
  }

  lemma {:induction false} EdgeDown(c: Checker, arena: Arena, tip: nat, p: nat)
    requires Linked(arena) && CheckerOk(c) && Ordinary(c) && RuleOf(c).period > 0 && tip < |arena| && p < |arena|
    requires PeriodEdge(c, arena, tip, p) && PeriodParent(arena, p, RuleOf(c).period).Some?
    ensures StateOf(c, arena, PeriodParent(arena, p, RuleOf(c).period)) == StateOf(c, arena, Some(tip)) ==>
            PeriodEdge(c, arena, tip, PeriodParent(arena, p, RuleOf(c).period).value)
  {
    var period := RuleOf(c).period;
    var parent := PeriodParent(arena, p, period).value;
    AncestorOfAncestor(arena, tip, arena[p].height, arena[parent].height);
    StateAtPeriodEnd(c, arena, parent);
    if StateOf(c, arena, Some(parent)) == StateOf(c, arena, Some(tip)) {
      SamePeriods(c, arena, tip, arena[parent].height + 1, arena[p].height + 1);
    }
  }

  lemma ParentIsPeriodParent(arena: Arena, tip: nat, p: nat, period: int)
    requires Linked(arena) && tip < |arena| && p < |arena| && 0 < period <= arena[p].height + 1
    requires arena[p].height <= arena[tip].height && AncestorAt(arena, tip, arena[p].height) == Some(p)
    ensures ParentAt(arena, tip, arena[p].height + 1 - period) == PeriodParent(arena, p, period)
  {
    if period <= arena[p].height {
      AncestorOfAncestor(arena, tip, arena[p].height, arena[p].height - period);
    }
  }

  /** The period that `p` ends had the state computed at the end of the period before it. */
  lemma {:induction false} StateBefore(c: Checker, arena: Arena, tip: nat, p: nat)
    requires Linked(arena) && CheckerOk(c) && Ordinary(c) && RuleOf(c).period > 0 && tip < |arena| && p < |arena|
    requires 0 <= arena[p].height <= arena[tip].height && EndsPeriod(arena[p].height, RuleOf(c).period)
    requires AncestorAt(arena, tip, arena[p].height) == Some(p)
    ensures StateAtHeight(c, arena, tip, arena[p].height)
         == PeriodState(RuleOf(c), arena, Signals(c, arena), PeriodParent(arena, p, RuleOf(c).period))
  {
    var period, h := RuleOf(c).period, arena[p].height;
    EndsPeriodIsStart(h, period);
    StateFromStart(c, arena, tip, h, h + 1 - period);
    ParentIsPeriodParent(arena, tip, p, period);
  }

  lemma {:induction false} StateFromStart(c: Checker, arena: Arena, tip: nat, h: int, start: int)
    requires Linked(arena) && CheckerOk(c) && Ordinary(c) && RuleOf(c).period > 0 && tip < |arena|
    requires 0 <= h <= arena[tip].height + 1 && start == PeriodStart(h, RuleOf(c).period)
    ensures StateAtHeight(c, arena, tip, h)
         == PeriodState(RuleOf(c), arena, Signals(c, arena), ParentAt(arena, tip, start))
  {
    StateAtPeriodStart(c, arena, tip, h);
  }

  lemma {:induction false} OtherStateBefore(c: Checker, arena: Arena, tip: nat, p: nat)
    requires Linked(arena) && CheckerOk(c) && Ordinary(c) && RuleOf(c).period > 0 && tip < |arena| && p < |arena|
    requires PeriodEdge(c, arena, tip, p) && StateOf(c, arena, Some(tip)) != Defined
    requires var parent := PeriodParent(arena, p, RuleOf(c).period);
             parent.Some? ==> StateOf(c, arena, parent) != StateOf(c, arena, Some(tip))
    ensures StateAtHeight(c, arena, tip, arena[p].height) != StateOf(c, arena, Some(tip))
  {
    StateBefore(c, arena, tip, p);
    StateOfParent(c, arena, p);
  }

  lemma {:induction false} StateOfParent(c: Checker, arena: Arena, p: nat)
    requires Linked(arena) && CheckerOk(c) && Ordinary(c) && RuleOf(c).period > 0 && p < |arena|
    requires arena[p].height >= 0 && EndsPeriod(arena[p].height, RuleOf(c).period)
    ensures var parent := PeriodParent(arena, p, RuleOf(c).period);
            PeriodState(RuleOf(c), arena, Signals(c, arena), parent)
            == if parent.Some? then StateOf(c, arena, parent) else Defined
  {
    var parent := PeriodParent(arena, p, RuleOf(c).period);
    if parent.Some? {
      StateAtPeriodEnd(c, arena, parent.value);
    }
  }

  lemma {:induction false} EdgeIsSince(c: Checker, arena: Arena, tip: nat, p: nat)
    requires Linked(arena) && CheckerOk(c) && Ordinary(c) && RuleOf(c).period > 0 && tip < |arena| && p < |arena|
    requires PeriodEdge(c, arena, tip, p) && StateOf(c, arena, Some(tip)) != Defined
    requires var parent := PeriodParent(arena, p, RuleOf(c).period);
             parent.Some? ==> StateOf(c, arena, parent) != StateOf(c, arena, Some(tip))
    ensures IsSince(c, arena, tip, arena[p].height + 1)
  {
    OtherStateBefore(c, arena, tip, p);
    SinceFromEdge(c, arena, tip, arena[p].height + 1);
  }

  lemma DefinedSinceGenesis(c: Checker, arena: Arena, prev: nat)
    requires Linked(arena) && CheckerOk(c) && prev < |arena|
    requires StateOf(c, arena, Some(prev)) == Defined
    ensures IsSince(c, arena, prev, 0)
  {
    assert LinkedAt(arena, prev);
    var tip := arena[prev].height + 1;
    forall h | 0 <= h <= tip ensures StateAtHeight(c, arena, prev, h) == Defined {
      StatesOnlyMoveForward(c, arena, prev, h, tip);
    }
  }
}
