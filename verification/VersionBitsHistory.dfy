/** What the deployment machine guarantees over a whole history: states of old
    blocks survive growth and forks, states only move forward along a branch, and
    answers never depend on what happens to be cached. */
module VersionBitsHistory {
  import opened Wrappers
  import opened Chain
  import opened Arith
  import opened VersionBits

  // ---------------------------------------------------------------------
  // Growing the tree does not change the state after any old block
  // ---------------------------------------------------------------------

  ghost predicate Agree(n: nat, s: nat -> bool, s': nat -> bool) {
    forall i: nat :: i < n ==> s(i) == s'(i)
  }

  lemma {:induction false} SignallingFrame(
      arena: Arena, more: Arena, s: nat -> bool, s': nat -> bool, idx: Option<nat>, n: nat)
    requires Linked(arena) && PrevOk(arena, idx) && Agree(|arena|, s, s')
    ensures Signalling(arena + more, s', idx, n) == Signalling(arena, s, idx, n)
    decreases n
  {
    if n > 0 && idx.Some? {
      assert LinkedAt(arena, idx.value);
      SignallingFrame(arena, more, s, s', arena[idx.value].prev, n - 1);
    }
  }

  lemma TransitionFrame(
      rule: Rule, arena: Arena, more: Arena, s: nat -> bool, s': nat -> bool, p: nat, state: ThresholdState)
    requires Linked(arena) && rule.period > 0 && p < |arena| && Agree(|arena|, s, s')
    ensures Transition(rule, arena + more, s', p, state) == Transition(rule, arena, s, p, state)
  {
    SignallingFrame(arena, more, s, s', Some(p), rule.period);
    WindowFrame(arena, more, Some(p), MEDIAN_TIME_SPAN);
  }

  lemma {:induction false} PeriodStateFrame(
      rule: Rule, arena: Arena, more: Arena, s: nat -> bool, s': nat -> bool, prev: Option<nat>)
    requires Linked(arena) && Linked(arena + more) && rule.period > 0 && PrevOk(arena, prev)
    requires Agree(|arena|, s, s')
    ensures PeriodState(rule, arena + more, s', prev) == PeriodState(rule, arena, s, prev)
    decreases Steps(arena, prev)
  {
    if prev.Some? {
      var p := prev.value;
      assert LinkedAt(arena, p);
      var parent := PeriodParent(arena, p, rule.period);
      AncestorFrame(arena, more, p, arena[p].height - rule.period);
      assert PeriodParent(arena + more, p, rule.period) == parent;
      PeriodStateFrame(rule, arena, more, s, s', parent);
      var state := PeriodState(rule, arena, s, parent);
      TransitionFrame(rule, arena, more, s, s', p, state);
    }
  }

  lemma StateUnderFrame(
      rule: Rule, arena: Arena, more: Arena, s: nat -> bool, s': nat -> bool, prev: Option<nat>)
    requires Linked(arena) && Linked(arena + more) && rule.period > 0 && PrevOk(arena, prev)
    requires Agree(|arena|, s, s')
    ensures StateUnder(rule, arena + more, s', prev) == StateUnder(rule, arena, s, prev)
  {
    if prev.Some? {
      var p := prev.value;
      assert LinkedAt(arena, p);
      AncestorFrame(arena, more, p, PeriodStart(arena[p].height + 1, rule.period) - 1);
    }
    var aligned := AlignedPrev(arena, prev, rule.period);
    assert AlignedPrev(arena + more, prev, rule.period) == aligned;
    PeriodStateFrame(rule, arena, more, s, s', aligned);
  }

  lemma KnownStateFrame(dep: Bip9Deployment, arena: Arena, more: Arena, prev: Option<nat>)
    requires Linked(arena) && Linked(arena + more) && DeploymentOk(dep) && PrevOk(arena, prev)
    ensures KnownState(dep, arena + more, prev) == KnownState(dep, arena, prev)
  {
    var before, after := KnownSignals(dep, arena), KnownSignals(dep, arena + more);
    StateUnderFrame(RuleOf(KnownBits(dep)), arena, more, before, after, prev);
  }

  lemma {:induction false} ExpectedVersionFrame(deps: seq<Bip9Deployment>, arena: Arena, more: Arena, prev: Option<nat>)
    requires Linked(arena) && Linked(arena + more) && PrevOk(arena, prev)
    requires forall d :: 0 <= d < |deps| ==> DeploymentOk(deps[d])
    ensures ExpectedVersion(deps, arena + more, prev) == ExpectedVersion(deps, arena, prev)
  {
    if deps != [] {
      ExpectedVersionFrame(deps[..|deps| - 1], arena, more, prev);
      KnownStateFrame(deps[|deps| - 1], arena, more, prev);
    }
  }

  lemma SignalsFrame(c: Checker, arena: Arena, more: Arena)
    requires Linked(arena) && Linked(arena + more) && CheckerOk(c)
    ensures Agree(|arena|, Signals(c, arena), Signals(c, arena + more))
  {
    forall i: nat | i < |arena| ensures Signals(c, arena)(i) == Signals(c, arena + more)(i) {
      if c.WarningBits? {
        assert LinkedAt(arena, i);
        ExpectedVersionFrame(c.params.deployments, arena, more, arena[i].prev);
      }
    }
  }

  /** The state after a block depends on that block's branch alone: later blocks and forks never change it. */
  lemma StateSurvivesGrowth(c: Checker, arena: Arena, more: Arena, prev: Option<nat>)
    requires Linked(arena) && Linked(arena + more) && CheckerOk(c) && PrevOk(arena, prev)
    ensures StateOf(c, arena + more, prev) == StateOf(c, arena, prev)
  {
    SignalsFrame(c, arena, more);
    StateUnderFrame(RuleOf(c), arena, more, Signals(c, arena), Signals(c, arena + more), prev);
  }

  /** Every cache stays correct while the tree grows. */
  lemma CacheSurvivesGrowth(c: Checker, arena: Arena, more: Arena, cache: Cache)
    requires Linked(arena) && Linked(arena + more) && CheckerOk(c) && CacheOk(c, arena, cache)
    ensures CacheOk(c, arena + more, cache)
  {
    SignalsFrame(c, arena, more);
    forall key | key in cache
      ensures KeyOk(arena + more, RuleOf(c).period, key)
      ensures cache[key] == PeriodState(RuleOf(c), arena + more, Signals(c, arena + more), key)
    {
      KeyFrame(arena, more, RuleOf(c).period, key);
      PeriodStateFrame(RuleOf(c), arena, more, Signals(c, arena), Signals(c, arena + more), key);
    }
  }

  lemma KeyFrame(arena: Arena, more: Arena, period: int, key: Option<nat>)
    requires period > 0 && KeyOk(arena, period, key)
    ensures KeyOk(arena + more, period, key)
  {
    assert key.Some? ==> (arena + more)[key.value] == arena[key.value];
  }

  // ---------------------------------------------------------------------
  // States only move forward along a branch
  // ---------------------------------------------------------------------

  /** `b` may hold on a branch on which `a` held earlier. */
  ghost predicate MayFollow(a: ThresholdState, b: ThresholdState) {
    || a == b
    || a == Defined
    || (a == Started && b != Defined)
    || (a == LockedIn && b == Active)
  }

  /** The state of the block at height `h` on the branch that ends in `prev`. */
  ghost function StateAtHeight(c: Checker, arena: Arena, prev: nat, h: int): ThresholdState
    requires Linked(arena) && CheckerOk(c) && prev < |arena| && 0 <= h <= arena[prev].height + 1
  {
    StateOf(c, arena, ParentAt(arena, prev, h))
  }

  ghost function ParentAt(arena: Arena, prev: nat, h: int): (parent: Option<nat>)
    requires Linked(arena) && prev < |arena| && 0 <= h <= arena[prev].height + 1
    ensures PrevOk(arena, parent) && (parent.Some? <==> h > 0)
    ensures parent.Some? ==> arena[parent.value].height == h - 1
  {
    if h == 0 then None else
      BackInRange(arena, prev, arena[prev].height - (h - 1));
      AncestorAt(arena, prev, h - 1)
  }

  lemma TransitionMayFollow(rule: Rule, arena: Arena, s: nat -> bool, p: nat, a: ThresholdState, state: ThresholdState)
    requires rule.period > 0 && p < |arena| && MayFollow(a, state)
    ensures MayFollow(a, Transition(rule, arena, s, p, state))
  {
  }

  /** The period end reached from `top` by going back `n` whole periods; `None` is the parent of genesis. */
  ghost function PeriodsBack(arena: Arena, period: int, top: Option<nat>, n: nat): (below: Option<nat>)
    requires Linked(arena) && period > 0 && PrevOk(arena, top)
    ensures PrevOk(arena, below)
    decreases n
  {
    if n == 0 || top.None? then top else PeriodsBack(arena, period, PeriodParent(arena, top.value, period), n - 1)
  }

  /** A state may follow the states of all earlier period ends of its branch. */
  lemma {:induction false} PeriodStateMayFollow(rule: Rule, arena: Arena, s: nat -> bool, top: Option<nat>, n: nat)
    requires Linked(arena) && rule.period > 0 && PrevOk(arena, top)
    ensures var below := PeriodsBack(arena, rule.period, top, n);
            MayFollow(PeriodState(rule, arena, s, below), PeriodState(rule, arena, s, top))
    decreases n
  {
    if n > 0 && top.Some? {
      var parent := PeriodParent(arena, top.value, rule.period);
      PeriodStateMayFollow(rule, arena, s, parent, n - 1);
      var below := PeriodsBack(arena, rule.period, top, n);
      TransitionMayFollow(rule, arena, s, top.value, PeriodState(rule, arena, s, below),
                          PeriodState(rule, arena, s, parent));
    }
  }

  /** Going back whole periods reaches an ancestor a multiple of the period below. */
  lemma {:induction false} PeriodsBackIsAncestor(arena: Arena, period: int, p: nat, n: nat)
    requires Linked(arena) && period > 0 && p < |arena| && PeriodsBack(arena, period, Some(p), n).Some?
    ensures var q := PeriodsBack(arena, period, Some(p), n).value;
            && arena[q].height <= arena[p].height && (arena[p].height - arena[q].height) % period == 0
            && AncestorAt(arena, p, arena[q].height) == Some(q)
    decreases n
  {
    assert LinkedAt(arena, p);
    if n == 0 {
      UniqueModulus(0, 0, 0, period);
    } else {
      var parent := PeriodParent(arena, p, period);
      PeriodsBackNone(arena, period, n - 1);
      PeriodsBackIsAncestor(arena, period, parent.value, n - 1);
      OnePeriodFurther(arena, p, PeriodsBack(arena, period, Some(p), n).value, period);
    }
  }

  lemma PeriodsBackNone(arena: Arena, period: int, n: nat)
    requires Linked(arena) && period > 0
    ensures PeriodsBack(arena, period, None, n) == None
  {
  }

  lemma OnePeriodFurther(arena: Arena, p: nat, q: nat, period: int)
    requires Linked(arena) && period > 0 && p < |arena| && q < |arena|
    requires var parent := PeriodParent(arena, p, period);
             && parent.Some? && arena[q].height <= arena[parent.value].height
             && (arena[parent.value].height - arena[q].height) % period == 0
             && AncestorAt(arena, parent.value, arena[q].height) == Some(q)
    ensures (arena[p].height - arena[q].height) % period == 0
    ensures AncestorAt(arena, p, arena[q].height) == Some(q)
  {
    assert LinkedAt(arena, q);
    var parent := PeriodParent(arena, p, period).value;
    ModulusStep(arena[parent].height - arena[q].height, period);
    AncestorOfAncestor(arena, p, arena[parent].height, arena[q].height);
  }

  /** Conversely, an ancestor a multiple of the period below is reached that way. */
  lemma {:induction false} AncestorIsPeriodsBack(arena: Arena, period: int, p: nat, h: int) returns (n: nat)
    requires Linked(arena) && period > 0 && p < |arena|
    requires 0 <= h <= arena[p].height && (arena[p].height - h) % period == 0
    ensures PeriodsBack(arena, period, Some(p), n) == AncestorAt(arena, p, h)
    decreases arena[p].height
  {
    AncestorOfAncestor(arena, p, h, h);
    if h == arena[p].height {
      n := 0;
      assert Back(arena, p, 0) == Some(p);
    } else {
      WholeStep(arena[p].height - h, period);
      var parent := PeriodParent(arena, p, period).value;
      var m := AncestorIsPeriodsBack(arena, period, parent, h);
      AncestorOfAncestor(arena, p, arena[parent].height, h);
      n := m + 1;
    }
  }

  lemma WholeStep(d: int, period: int)
    requires d > 0 && period > 0 && d % period == 0
    ensures d >= period && (d - period) % period == 0
  {
    ModulusStep(d, period);
    if d < period {
      UniqueModulus(d, 0, d, period);
    }
  }

  // ---------------------------------------------------------------------
  // Heights
  // ---------------------------------------------------------------------

  lemma {:induction false} PeriodStartIsMultiple(h: int, period: int)
    requires h >= 0 && period > 0
    ensures 0 <= PeriodStart(h, period) <= h
    ensures PeriodStart(h, period) == (h / period) * period
    ensures PeriodStart(h, period) % period == 0
  {
    PeriodStartIs(h, period);
    var q := h / period;
    assert h - h % period == q * period;
    MultipleModulus(q, period);
  }

  lemma {:induction false} PeriodStartMonotone(h: int, k: int, period: int)
    requires 0 <= h <= k && period > 0
    ensures PeriodStart(h, period) <= PeriodStart(k, period)
    decreases h
  {
    if h >= period {
      PeriodStartMonotone(h - period, k - period, period);
    }
  }

  lemma MultiplesDiffer(a: int, b: int, period: int)
    requires period > 0 && a % period == 0 && b % period == 0
    ensures (b - a) % period == 0
  {
    var q, r := a / period, b / period;
    assert b - a == (r - q) * period;
    MultipleModulus(r - q, period);
  }

  /** All blocks of a period share the period end below them. */
  lemma {:induction false} AlignedAtHeight(arena: Arena, prev: nat, h: int, period: int)
    requires Linked(arena) && prev < |arena| && 0 <= h <= arena[prev].height + 1 && period > 0
    ensures 0 <= PeriodStart(h, period) <= h
    ensures AlignedPrev(arena, ParentAt(arena, prev, h), period) == ParentAt(arena, prev, PeriodStart(h, period))
  {
    if PeriodStart(h, period) > 0 {
      AncestorOfAncestor(arena, prev, h - 1, PeriodStart(h, period) - 1);
    }
  }

  ghost predicate Ordinary(c: Checker) {
    RuleOf(c).beginTime != ALWAYS_ACTIVE && RuleOf(c).beginTime != NEVER_ACTIVE
  }

  lemma {:induction false} StateAtPeriodStart(c: Checker, arena: Arena, prev: nat, h: int)
    requires Linked(arena) && CheckerOk(c) && Ordinary(c)
    requires prev < |arena| && 0 <= h <= arena[prev].height + 1
    ensures RuleOf(c).period > 0 && 0 <= PeriodStart(h, RuleOf(c).period) <= h
    ensures StateAtHeight(c, arena, prev, h)
         == PeriodState(RuleOf(c), arena, Signals(c, arena), ParentAt(arena, prev, PeriodStart(h, RuleOf(c).period)))
  {
    RulePeriod(c);
    AlignedAtHeight(arena, prev, h, RuleOf(c).period);
  }

  lemma ParentBelow(arena: Arena, prev: nat, a: int, b: int)
    requires Linked(arena) && prev < |arena| && 0 < a <= b <= arena[prev].height + 1
    ensures var top := ParentAt(arena, prev, b).value;
            arena[top].height - (a - 1) == b - a && AncestorAt(arena, top, a - 1) == ParentAt(arena, prev, a)
  {
    AncestorOfAncestor(arena, prev, b - 1, a - 1);
  }

  /** Whole periods lead from any height's period start to that of any lower height, or below genesis. */
  lemma {:induction false} PeriodStartsLinked(arena: Arena, prev: nat, h: int, k: int, period: int) returns (n: nat)
    requires Linked(arena) && prev < |arena| && 0 <= h <= k <= arena[prev].height + 1 && period > 0
    requires PeriodStart(h, period) > 0
    ensures 0 < PeriodStart(h, period) <= PeriodStart(k, period) <= arena[prev].height + 1
    ensures PeriodsBack(arena, period, ParentAt(arena, prev, PeriodStart(k, period)), n)
         == ParentAt(arena, prev, PeriodStart(h, period))
  {
    PeriodStartIsMultiple(h, period);
    PeriodStartIsMultiple(k, period);
    PeriodStartMonotone(h, k, period);
    MultiplesDiffer(PeriodStart(h, period), PeriodStart(k, period), period);
    n := ParentsLinked(arena, prev, PeriodStart(h, period), PeriodStart(k, period), period);
  }

  lemma ParentsLinked(arena: Arena, prev: nat, a: int, b: int, period: int) returns (n: nat)
    requires Linked(arena) && prev < |arena| && 0 < a <= b <= arena[prev].height + 1
    requires period > 0 && (b - a) % period == 0
    ensures PeriodsBack(arena, period, ParentAt(arena, prev, b), n) == ParentAt(arena, prev, a)
  {
    ParentBelow(arena, prev, a, b);
    n := AncestorIsPeriodsBack(arena, period, ParentAt(arena, prev, b).value, a - 1);
  }

  /** Along any branch states only move Defined, Started, then LockedIn and Active or else Failed. */
  lemma {:induction false} StatesOnlyMoveForward(c: Checker, arena: Arena, prev: nat, h: int, k: int)
    requires Linked(arena) && CheckerOk(c) && prev < |arena| && 0 <= h <= k <= arena[prev].height + 1
    ensures MayFollow(StateAtHeight(c, arena, prev, h), StateAtHeight(c, arena, prev, k))
  {
    if Ordinary(c) {
      var rule, s := RuleOf(c), Signals(c, arena);
      StateAtPeriodStart(c, arena, prev, h);
      StateAtPeriodStart(c, arena, prev, k);
      var a, b := PeriodStart(h, rule.period), PeriodStart(k, rule.period);
      if a > 0 {
        var n := PeriodStartsLinked(arena, prev, h, k, rule.period);
        PeriodStateMayFollow(rule, arena, s, ParentAt(arena, prev, b), n);
      } else {
        assert PeriodState(rule, arena, s, None) == Defined;
      }
    }
  }

  /** `n` periods before `p` lies a period that began Started and reached the threshold. */
  ghost predicate LockedInAt(rule: Rule, arena: Arena, s: nat -> bool, p: nat, n: nat)
    requires Linked(arena) && rule.period > 0 && p < |arena|
  {
    var q := PeriodsBack(arena, rule.period, Some(p), n);
    && q.Some?
    && PeriodState(rule, arena, s, PeriodParent(arena, q.value, rule.period)) == Started
    && Signalling(arena, s, q, rule.period) >= rule.threshold
  }

  /** Entering LockedIn takes a started period that reaches the threshold. */
  lemma LocksIn(rule: Rule, arena: Arena, s: nat -> bool, p: nat)
    requires Linked(arena) && rule.period > 0 && p < |arena|
    requires PeriodState(rule, arena, s, Some(p)) == LockedIn
    requires PeriodState(rule, arena, s, PeriodParent(arena, p, rule.period)) != LockedIn
    ensures LockedInAt(rule, arena, s, p, 0)
  {
  }

  lemma LockedInEarlier(rule: Rule, arena: Arena, s: nat -> bool, p: nat, n: nat)
    requires Linked(arena) && rule.period > 0 && p < |arena| && PeriodParent(arena, p, rule.period).Some?
    requires LockedInAt(rule, arena, s, PeriodParent(arena, p, rule.period).value, n)
    ensures LockedInAt(rule, arena, s, p, n + 1)
  {
  }

  lemma {:induction false} FindLockIn(rule: Rule, arena: Arena, s: nat -> bool, p: nat) returns (n: nat)
    requires Linked(arena) && rule.period > 0 && p < |arena|
    requires PeriodState(rule, arena, s, Some(p)) == LockedIn || PeriodState(rule, arena, s, Some(p)) == Active
    ensures LockedInAt(rule, arena, s, p, n)
    ensures PeriodState(rule, arena, s, Some(p)) == Active ==> n > 0 && arena[p].height + 1 >= rule.minActivationHeight
    decreases arena[p].height
  {
    assert LinkedAt(arena, p);
    var parent := PeriodParent(arena, p, rule.period);
    var before := PeriodState(rule, arena, s, parent);
    if before == LockedIn || before == Active {
      assert parent.Some?;
      var m := FindLockIn(rule, arena, s, parent.value);
      LockedInEarlier(rule, arena, s, p, m);
      n := m + 1;
    } else {
      n := 0;
      LocksIn(rule, arena, s, p);
    }
  }

  /** An active deployment was locked in by an earlier full period that reached the threshold,
      while it was started, and its activation height has been reached. */
  lemma ActiveWasLockedIn(rule: Rule, arena: Arena, s: nat -> bool, p: nat) returns (q: nat)
    requires Linked(arena) && rule.period > 0 && p < |arena|
    requires PeriodState(rule, arena, s, Some(p)) == Active
    ensures q < |arena| && arena[q].height < arena[p].height
    ensures (arena[p].height - arena[q].height) % rule.period == 0
    ensures AncestorAt(arena, p, arena[q].height) == Some(q)
    ensures PeriodState(rule, arena, s, PeriodParent(arena, q, rule.period)) == Started
    ensures Signalling(arena, s, Some(q), rule.period) >= rule.threshold
    ensures arena[p].height + 1 >= rule.minActivationHeight
  {
    var n := FindLockIn(rule, arena, s, p);
    q := PeriodsBack(arena, rule.period, Some(p), n).value;
    PeriodsBackIsAncestor(arena, rule.period, p, n);
    StrictlyBelow(arena, rule.period, p, n);
  }

  /** The same of the state at any height of a branch: an earlier period of the branch, which began Started, reached the
      threshold, and the height is not below the activation height. */
  lemma {:induction false} ActiveAtHeight(c: Checker, arena: Arena, prev: nat, h: int) returns (q: nat)
    requires Linked(arena) && CheckerOk(c) && Ordinary(c) && prev < |arena| && 0 <= h <= arena[prev].height + 1
    requires StateAtHeight(c, arena, prev, h) == Active
    ensures RuleOf(c).period > 0 && q < |arena| && arena[q].height < h && h >= RuleOf(c).minActivationHeight
    ensures AncestorAt(arena, prev, arena[q].height) == Some(q)
    ensures PeriodState(RuleOf(c), arena, Signals(c, arena), PeriodParent(arena, q, RuleOf(c).period)) == Started
    ensures Signalling(arena, Signals(c, arena), Some(q), RuleOf(c).period) >= RuleOf(c).threshold
  {
    StateAtPeriodStart(c, arena, prev, h);
    var start := PeriodStart(h, RuleOf(c).period);
    q := ActiveBelow(RuleOf(c), arena, Signals(c, arena), prev, start);
  }

  lemma {:induction false} ActiveBelow(rule: Rule, arena: Arena, s: nat -> bool, prev: nat, start: int) returns (q: nat)
    requires Linked(arena) && rule.period > 0 && prev < |arena| && 0 <= start <= arena[prev].height + 1
    requires PeriodState(rule, arena, s, ParentAt(arena, prev, start)) == Active
    ensures q < |arena| && arena[q].height < start && start >= rule.minActivationHeight
    ensures AncestorAt(arena, prev, arena[q].height) == Some(q)
    ensures PeriodState(rule, arena, s, PeriodParent(arena, q, rule.period)) == Started
    ensures Signalling(arena, s, Some(q), rule.period) >= rule.threshold
  {
    ActiveHasBlock(rule, arena, s, ParentAt(arena, prev, start));
    var parent := ParentAt(arena, prev, start).value;
    q := ActiveAncestor(rule, arena, s, parent);
    BelowParent(arena, prev, start, q);
  }

  lemma {:induction false} BelowParent(arena: Arena, prev: nat, start: int, q: nat)
    requires Linked(arena) && prev < |arena| && 0 <= start <= arena[prev].height + 1 && q < |arena|
    requires ParentAt(arena, prev, start).Some?
    requires var parent := ParentAt(arena, prev, start).value;
             0 <= arena[q].height < arena[parent].height && AncestorAt(arena, parent, arena[q].height) == Some(q)
    ensures arena[ParentAt(arena, prev, start).value].height == start - 1
    ensures AncestorAt(arena, prev, arena[q].height) == Some(q)
  {
    AncestorOfAncestor(arena, prev, start - 1, arena[q].height);
  }

  lemma ActiveHasBlock(rule: Rule, arena: Arena, s: nat -> bool, p: Option<nat>)
    requires Linked(arena) && rule.period > 0 && PrevOk(arena, p) && PeriodState(rule, arena, s, p) == Active
    ensures p.Some?
  {
  }

  lemma ActiveAncestor(rule: Rule, arena: Arena, s: nat -> bool, p: nat) returns (q: nat)
    requires Linked(arena) && rule.period > 0 && p < |arena|
    requires PeriodState(rule, arena, s, Some(p)) == Active
    ensures q < |arena| && 0 <= arena[q].height < arena[p].height && AncestorAt(arena, p, arena[q].height) == Some(q)
    ensures PeriodState(rule, arena, s, PeriodParent(arena, q, rule.period)) == Started
    ensures Signalling(arena, s, Some(q), rule.period) >= rule.threshold
    ensures arena[p].height + 1 >= rule.minActivationHeight
  {
    q := ActiveWasLockedIn(rule, arena, s, p);
    assert LinkedAt(arena, q);
  }

  lemma StrictlyBelow(arena: Arena, period: int, p: nat, n: nat)
    requires Linked(arena) && period > 0 && p < |arena| && n > 0 && PeriodsBack(arena, period, Some(p), n).Some?
    ensures arena[PeriodsBack(arena, period, Some(p), n).value].height < arena[p].height
  {
    var parent := PeriodParent(arena, p, period);
    PeriodsBackNone(arena, period, n - 1);
    PeriodsBackIsAncestor(arena, period, parent.value, n - 1);
  }

  lemma LockedInByThreshold(rule: Rule, arena: Arena, s: nat -> bool, p: nat) returns (q: nat)
    requires Linked(arena) && rule.period > 0 && p < |arena|
    requires PeriodState(rule, arena, s, Some(p)) == LockedIn
    ensures q < |arena| && arena[q].height <= arena[p].height
    ensures (arena[p].height - arena[q].height) % rule.period == 0
    ensures AncestorAt(arena, p, arena[q].height) == Some(q)
    ensures PeriodState(rule, arena, s, PeriodParent(arena, q, rule.period)) == Started
    ensures Signalling(arena, s, Some(q), rule.period) >= rule.threshold
  {
    var n := FindLockIn(rule, arena, s, p);
    q := PeriodsBack(arena, rule.period, Some(p), n).value;
    PeriodsBackIsAncestor(arena, rule.period, p, n);
  }
}
