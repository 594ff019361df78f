/** What the states of a branch are, height by height, without the recursion that computes them. */
module VersionBitsTransitions {
  import opened Wrappers
  import opened Chain
  import opened Arith
  import opened VersionBits
  import opened VersionBitsHistory
  import opened VersionBitsSince

  // ---------------------------------------------------------------------
  // The parameters of a deployment, and of the machine that watches an unknown bit
  // ---------------------------------------------------------------------

  function StartTime(c: Checker): int {
    if c.KnownBits? then c.dep.startTime else 0
  }

  function Timeout(c: Checker): int {
    if c.KnownBits? then c.dep.timeout else 0x7FFF_FFFF_FFFF_FFFF
  }

  function ActivationHeight(c: Checker): int {
    if c.KnownBits? then c.dep.minActivationHeight else 0
  }

  function Period(c: Checker): int {
    if c.KnownBits? then c.dep.period
    else if c.params.isTestChain then c.params.difficultyAdjustmentInterval else 2016
  }

  function Threshold(c: Checker): int {
    if c.KnownBits? then c.dep.threshold
    else if c.params.isTestChain then c.params.difficultyAdjustmentInterval * 3 / 4 else 1815
  }

  // ---------------------------------------------------------------------
  // From one period to the next
  // ---------------------------------------------------------------------

  /** `q` is the last block of a period on the branch that ends in `prev`, below height `h`. */
  ghost predicate IsPeriodEnd(c: Checker, arena: Arena, prev: nat, h: int, q: nat)
    requires Linked(arena) && CheckerOk(c) && prev < |arena| && Period(c) > 0
  {
    && q < |arena| && 0 <= arena[q].height <= arena[prev].height && arena[q].height < h
    && AncestorAt(arena, prev, arena[q].height) == Some(q)
    && EndsPeriod(arena[q].height, Period(c))
  }

  /** State of the period that `q` ends. */
  ghost function StateUntil(c: Checker, arena: Arena, prev: nat, q: nat): ThresholdState
    requires Linked(arena) && CheckerOk(c) && prev < |arena| && q < |arena|
    requires 0 <= arena[q].height <= arena[prev].height
  {
    StateAtHeight(c, arena, prev, arena[q].height)
  }

  /** How many blocks of the period that `q` ends signal. */
  ghost function SignalsUntil(c: Checker, arena: Arena, q: nat): nat
    requires Linked(arena) && CheckerOk(c) && Period(c) > 0
  {
    Signalling(arena, Signals(c, arena), Some(q), Period(c))
  }

  lemma {:induction false} StateAfterEnd(c: Checker, arena: Arena, prev: nat, q: nat)
    requires Linked(arena) && CheckerOk(c) && Ordinary(c) && prev < |arena| && Period(c) > 0
    requires IsPeriodEnd(c, arena, prev, arena[prev].height + 1, q)
    ensures StateAtHeight(c, arena, prev, arena[q].height + 1)
         == PeriodState(RuleOf(c), arena, Signals(c, arena), Some(q))
    ensures StateUntil(c, arena, prev, q)
         == PeriodState(RuleOf(c), arena, Signals(c, arena), PeriodParent(arena, q, RuleOf(c).period))
  {
    assert ParentAt(arena, prev, arena[q].height + 1) == Some(q);
    StateAtPeriodEnd(c, arena, q);
    StateBefore(c, arena, prev, q);
  }

  /** The transitions of BIP9, from the state of a period to that of the next: a defined deployment starts when the
      median time reaches the start time; a started one locks in when enough blocks of the period signalled, and fails
      when they did not and the median time reaches the timeout; a locked-in one becomes active at the activation
      height; the other two never change. */
  lemma {:induction false} PeriodChange(c: Checker, arena: Arena, prev: nat, q: nat)
    requires Linked(arena) && CheckerOk(c) && Ordinary(c) && prev < |arena| && Period(c) > 0
    requires IsPeriodEnd(c, arena, prev, arena[prev].height + 1, q)
    ensures var before := StateUntil(c, arena, prev, q);
            var after := StateAtHeight(c, arena, prev, arena[q].height + 1);
            var mtp, enough := ComputeMtp(arena, q), SignalsUntil(c, arena, q) >= Threshold(c);
            && (before == Defined ==> after == if mtp >= StartTime(c) then Started else Defined)
            && (before == Started ==> (after == LockedIn <==> enough))
            && (before == Started ==> (after == Failed <==> !enough && mtp >= Timeout(c)))
            && (before == Started ==> (after == Started <==> !enough && mtp < Timeout(c)))
            && (before == LockedIn ==> (after == Active <==> arena[q].height + 1 >= ActivationHeight(c)))
            && (before == LockedIn ==> after == Active || after == LockedIn)
            && (before == Active || before == Failed ==> after == before)
  {
    StateAfterEnd(c, arena, prev, q);
    StepOfPeriod(RuleOf(c), arena, Signals(c, arena), q);
  }

  lemma {:induction false} StepOfPeriod(rule: Rule, arena: Arena, signals: nat -> bool, q: nat)
    requires Linked(arena) && rule.period > 0 && q < |arena|
    ensures PeriodState(rule, arena, signals, Some(q))
         == Transition(rule, arena, signals, q,
                       PeriodState(rule, arena, signals, PeriodParent(arena, q, rule.period)))
  {
  }

  // ---------------------------------------------------------------------
  // Each state, by what happened on the branch
  // ---------------------------------------------------------------------

  lemma {:induction false} SameAsPeriodStart(c: Checker, arena: Arena, prev: nat, h: int)
    requires Linked(arena) && CheckerOk(c) && Ordinary(c) && prev < |arena| && 0 <= h <= arena[prev].height + 1
    requires Period(c) > 0 && PeriodStart(h, Period(c)) > 0
    ensures PeriodStart(h, Period(c)) <= h
    ensures StateAtHeight(c, arena, prev, h) == StateAtHeight(c, arena, prev, PeriodStart(h, Period(c)))
  {
    BeforeStartEnds(h, Period(c));
    StateAtPeriodStart(c, arena, prev, h);
    StateAtPeriodStart(c, arena, prev, PeriodStart(h, Period(c)));
  }

  lemma {:induction false} AfterFirstPeriod(c: Checker, arena: Arena, prev: nat, h: int)
    requires Linked(arena) && CheckerOk(c) && Ordinary(c) && prev < |arena| && 0 <= h <= arena[prev].height + 1
    requires Period(c) > 0 && StateAtHeight(c, arena, prev, h) != Defined
    ensures PeriodStart(h, Period(c)) > 0
  {
    StateAtPeriodStart(c, arena, prev, h);
  }

  /** A state other than Defined was reached at the end of an earlier period and has held since. */
  lemma {:induction false} ReachedAt(c: Checker, arena: Arena, prev: nat, h: int) returns (q: nat)
    requires Linked(arena) && CheckerOk(c) && Ordinary(c) && prev < |arena| && 0 <= h <= arena[prev].height + 1
    requires Period(c) > 0 && StateAtHeight(c, arena, prev, h) != Defined
    ensures IsPeriodEnd(c, arena, prev, h, q)
    ensures StateAtHeight(c, arena, prev, arena[q].height + 1) == StateAtHeight(c, arena, prev, h)
  {
    AfterFirstPeriod(c, arena, prev, h);
    q := EndBefore(c, arena, prev, h);
    SameAsPeriodStart(c, arena, prev, h);
  }

  lemma {:induction false} EndBefore(c: Checker, arena: Arena, prev: nat, h: int) returns (q: nat)
    requires Linked(arena) && CheckerOk(c) && prev < |arena| && 0 <= h <= arena[prev].height + 1
    requires Period(c) > 0 && PeriodStart(h, Period(c)) > 0
    ensures IsPeriodEnd(c, arena, prev, h, q) && arena[q].height + 1 == PeriodStart(h, Period(c))
  {
    BeforeStartEnds(h, Period(c));
    q := ParentAt(arena, prev, PeriodStart(h, Period(c))).value;
  }

  /** The deployment fails at the end of the period that `q` ends. */
  ghost predicate FailsAt(c: Checker, arena: Arena, prev: nat, h: int, q: nat)
    requires Linked(arena) && CheckerOk(c) && prev < |arena| && Period(c) > 0
  {
    && IsPeriodEnd(c, arena, prev, h, q) && StateUntil(c, arena, prev, q) == Started
    && SignalsUntil(c, arena, q) < Threshold(c) && ComputeMtp(arena, q) >= Timeout(c)
  }

  ghost predicate LocksInAt(c: Checker, arena: Arena, prev: nat, h: int, q: nat)
    requires Linked(arena) && CheckerOk(c) && prev < |arena| && Period(c) > 0
  {
    && IsPeriodEnd(c, arena, prev, h, q) && StateUntil(c, arena, prev, q) == Started
    && SignalsUntil(c, arena, q) >= Threshold(c)
  }

  ghost predicate ActivatesAt(c: Checker, arena: Arena, prev: nat, h: int, q: nat)
    requires Linked(arena) && CheckerOk(c) && prev < |arena| && Period(c) > 0
  {
    && IsPeriodEnd(c, arena, prev, h, q) && StateUntil(c, arena, prev, q) == LockedIn
    && arena[q].height + 1 >= ActivationHeight(c)
  }

  ghost predicate StartsAt(c: Checker, arena: Arena, prev: nat, h: int, q: nat)
    requires Linked(arena) && CheckerOk(c) && prev < |arena| && Period(c) > 0
  {
    IsPeriodEnd(c, arena, prev, h, q) && ComputeMtp(arena, q) >= StartTime(c)
  }

  lemma {:induction false} FindFailure(c: Checker, arena: Arena, prev: nat, h: int) returns (q: nat)
    requires Linked(arena) && CheckerOk(c) && Ordinary(c) && prev < |arena| && 0 <= h <= arena[prev].height + 1
    requires Period(c) > 0 && StateAtHeight(c, arena, prev, h) == Failed
    ensures FailsAt(c, arena, prev, h, q)
    decreases h
  {
    q := ReachedAt(c, arena, prev, h);
    PeriodChange(c, arena, prev, q);
    if StateUntil(c, arena, prev, q) == Failed {
      q := FindFailure(c, arena, prev, arena[q].height);
    }
  }

  lemma {:induction false} FindLockInEnd(c: Checker, arena: Arena, prev: nat, h: int) returns (q: nat)
    requires Linked(arena) && CheckerOk(c) && Ordinary(c) && prev < |arena| && 0 <= h <= arena[prev].height + 1
    requires Period(c) > 0
    requires StateAtHeight(c, arena, prev, h) == LockedIn || StateAtHeight(c, arena, prev, h) == Active
    ensures LocksInAt(c, arena, prev, h, q)
    decreases h
  {
    q := ReachedAt(c, arena, prev, h);
    PeriodChange(c, arena, prev, q);
    if StateUntil(c, arena, prev, q) != Started {
      q := FindLockInEnd(c, arena, prev, arena[q].height);
    }
  }

  lemma {:induction false} FindActivation(c: Checker, arena: Arena, prev: nat, h: int) returns (q: nat)
    requires Linked(arena) && CheckerOk(c) && Ordinary(c) && prev < |arena| && 0 <= h <= arena[prev].height + 1
    requires Period(c) > 0 && StateAtHeight(c, arena, prev, h) == Active
    ensures ActivatesAt(c, arena, prev, h, q)
    decreases h
  {
    q := ReachedAt(c, arena, prev, h);
    PeriodChange(c, arena, prev, q);
    if StateUntil(c, arena, prev, q) == Active {
      q := FindActivation(c, arena, prev, arena[q].height);
    }
  }

  lemma {:induction false} FindStart(c: Checker, arena: Arena, prev: nat, h: int) returns (q: nat)
    requires Linked(arena) && CheckerOk(c) && Ordinary(c) && prev < |arena| && 0 <= h <= arena[prev].height + 1
    requires Period(c) > 0 && StateAtHeight(c, arena, prev, h) != Defined
    ensures StartsAt(c, arena, prev, h, q)
    decreases h
  {
    q := ReachedAt(c, arena, prev, h);
    PeriodChange(c, arena, prev, q);
    if StateUntil(c, arena, prev, q) != Defined {
      q := FindStart(c, arena, prev, arena[q].height);
    }
  }

  /** What the change at a period end leads to later. */
  lemma {:induction false} ChangeLasts(c: Checker, arena: Arena, prev: nat, h: int, q: nat)
    requires Linked(arena) && CheckerOk(c) && Ordinary(c) && prev < |arena| && 0 <= h <= arena[prev].height + 1
    requires Period(c) > 0 && IsPeriodEnd(c, arena, prev, h, q)
    ensures MayFollow(StateAtHeight(c, arena, prev, arena[q].height + 1), StateAtHeight(c, arena, prev, h))
  {
    StatesOnlyMoveForward(c, arena, prev, arena[q].height + 1, h);
  }

  /** A deployment has failed if and only if an earlier period of the branch began Started, missed the threshold and
      ended with its median time at or after the timeout. */
  lemma {:induction false} FailedIff(c: Checker, arena: Arena, prev: nat, h: int)
    requires Linked(arena) && CheckerOk(c) && Ordinary(c) && prev < |arena| && 0 <= h <= arena[prev].height + 1
    ensures Period(c) > 0
    ensures StateAtHeight(c, arena, prev, h) == Failed <==> exists q :: FailsAt(c, arena, prev, h, q)
  {
    RulePeriod(c);
    if StateAtHeight(c, arena, prev, h) == Failed {
      var q := FindFailure(c, arena, prev, h);
      assert FailsAt(c, arena, prev, h, q);
    }
    forall q | FailsAt(c, arena, prev, h, q) ensures StateAtHeight(c, arena, prev, h) == Failed {
      PeriodChange(c, arena, prev, q);
      ChangeLasts(c, arena, prev, h, q);
    }
  }

  /** It is locked in or active if and only if an earlier period began Started and reached the threshold. */
  lemma {:induction false} LockedInIff(c: Checker, arena: Arena, prev: nat, h: int)
    requires Linked(arena) && CheckerOk(c) && Ordinary(c) && prev < |arena| && 0 <= h <= arena[prev].height + 1
    ensures Period(c) > 0
    ensures var state := StateAtHeight(c, arena, prev, h);
            state == LockedIn || state == Active <==> exists q :: LocksInAt(c, arena, prev, h, q)
  {
    RulePeriod(c);
    var state := StateAtHeight(c, arena, prev, h);
    if state == LockedIn || state == Active {
      var q := FindLockInEnd(c, arena, prev, h);
      assert LocksInAt(c, arena, prev, h, q);
    }
    forall q | LocksInAt(c, arena, prev, h, q) ensures state == LockedIn || state == Active {
      PeriodChange(c, arena, prev, q);
      ChangeLasts(c, arena, prev, h, q);
    }
  }

  /** It is active if and only if an earlier locked-in period ended at or after the activation height. */
  lemma {:induction false} ActiveIff(c: Checker, arena: Arena, prev: nat, h: int)
    requires Linked(arena) && CheckerOk(c) && Ordinary(c) && prev < |arena| && 0 <= h <= arena[prev].height + 1
    ensures Period(c) > 0
    ensures StateAtHeight(c, arena, prev, h) == Active <==> exists q :: ActivatesAt(c, arena, prev, h, q)
  {
    RulePeriod(c);
    if StateAtHeight(c, arena, prev, h) == Active {
      var q := FindActivation(c, arena, prev, h);
      assert ActivatesAt(c, arena, prev, h, q);
    }
    forall q | ActivatesAt(c, arena, prev, h, q) ensures StateAtHeight(c, arena, prev, h) == Active {
      PeriodChange(c, arena, prev, q);
      ChangeLasts(c, arena, prev, h, q);
    }
  }

  /** It is still defined if and only if no earlier period ended with its median time at or after the start time. */
  lemma {:induction false} DefinedIff(c: Checker, arena: Arena, prev: nat, h: int)
    requires Linked(arena) && CheckerOk(c) && Ordinary(c) && prev < |arena| && 0 <= h <= arena[prev].height + 1
    ensures Period(c) > 0
    ensures StateAtHeight(c, arena, prev, h) != Defined <==> exists q :: StartsAt(c, arena, prev, h, q)
  {
    RulePeriod(c);
    if StateAtHeight(c, arena, prev, h) != Defined {
      var q := FindStart(c, arena, prev, h);
      assert StartsAt(c, arena, prev, h, q);
    }
    forall q | StartsAt(c, arena, prev, h, q) ensures StateAtHeight(c, arena, prev, h) != Defined {
      PeriodChange(c, arena, prev, q);
      ChangeLasts(c, arena, prev, h, q);
    }
  }
}
