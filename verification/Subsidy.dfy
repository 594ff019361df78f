/** The block subsidy and the supply it adds up to. */
module Subsidy {
  import opened Arith
  import opened Transactions

  const INITIAL_SUBSIDY: int := 50 * COIN
  const MAINNET_HALVING_INTERVAL: nat := 210_000

  /** Shift right of a non-negative number. */
  function ShiftRight(v: nat, k: nat): nat
    decreases k, v
  {
    if k == 0 then v else ShiftRight(v, k - 1) / 2
  }

  /** The reward after a number of halvings; the shift is undefined from 64 on. */
  function EraSubsidy(initial: nat, halvings: nat): nat {
    if halvings >= 64 then 0 else ShiftRight(initial, halvings)
  }

  function GetBlockSubsidy(initial: nat, height: nat, interval: nat): nat
    requires interval > 0
  {
    EraSubsidy(initial, height / interval)
  }

  /** The subsidies of the blocks at heights below `n`. */
  ghost function Issued(initial: nat, n: nat, interval: nat): nat
    requires interval > 0
    decreases n, initial
  {
    if n == 0 then 0 else Issued(initial, n - 1, interval) + GetBlockSubsidy(initial, n - 1, interval)
  }

  /** One block's worth of each of the first `k` eras. */
  ghost function Eras(initial: nat, k: nat): nat
    decreases k, initial
  {
    if k == 0 then 0 else Eras(initial, k - 1) + EraSubsidy(initial, k - 1)
  }

  // ---------------------------------------------------------------------
  // Adding up era by era
  // ---------------------------------------------------------------------

  lemma {:induction false} StartedEra(initial: nat, base: nat, q: nat, r: nat, interval: nat)
    requires interval > 0 && base == q * interval && r <= interval
    ensures Issued(initial, base + r, interval) == Issued(initial, base, interval) + r * EraSubsidy(initial, q)
    decreases r
  {
    if r > 0 {
      StartedEra(initial, base, q, r - 1, interval);
      UniqueModulus(base + (r - 1), q, r - 1, interval);
      Successor(r - 1, EraSubsidy(initial, q));
    }
  }

  lemma Successor(a: int, b: int)
    ensures (a + 1) * b == a * b + b
  {
  }

  lemma {:induction false} WholeEras(initial: nat, base: nat, q: nat, interval: nat)
    requires interval > 0 && base == q * interval
    ensures Issued(initial, base, interval) == Eras(initial, q) * interval
    decreases q
  {
    if q > 0 {
      Successor(q - 1, interval);
      MulNonneg(q - 1, interval);
      WholeEras(initial, base - interval, q - 1, interval);
      StartedEra(initial, base - interval, q - 1, interval, interval);
      Distribute(Eras(initial, q - 1), EraSubsidy(initial, q - 1), interval);
      assert Eras(initial, q) == Eras(initial, q - 1) + EraSubsidy(initial, q - 1);
    }
  }

  lemma Distribute(a: int, b: int, c: int)
    ensures (a + b) * c == a * c + c * b
  {
  }

  lemma {:induction false} ShiftMonotone(v: nat, j: nat, k: nat)
    requires j <= k
    ensures ShiftRight(v, k) <= ShiftRight(v, j)
    decreases k
  {
    if j < k {
      ShiftMonotone(v, j, k - 1);
    }
  }

  lemma NextEra(initial: nat, k: nat)
    requires k < 63
    ensures Eras(initial, k + 1) == Eras(initial, k) + EraSubsidy(initial, k)
    ensures EraSubsidy(initial, k + 1) == EraSubsidy(initial, k) / 2
  {
  }

  lemma FourEras(initial: nat, k: nat, s: nat, t: nat)
    requires k < 60 && EraSubsidy(initial, k) == s && Eras(initial, k) == t
    ensures EraSubsidy(initial, k + 4) == s / 2 / 2 / 2 / 2
    ensures Eras(initial, k + 4) == t + s + s / 2 + s / 2 / 2 + s / 2 / 2 / 2
  {
    NextEra(initial, k);
    NextEra(initial, k + 1);
    NextEra(initial, k + 2);
    NextEra(initial, k + 3);
  }

  lemma SixteenEras(initial: nat)
    requires initial == INITIAL_SUBSIDY
    ensures EraSubsidy(initial, 16) == 76_293 && Eras(initial, 16) == 9_999_847_409
  {
    FourEras(initial, 0, 5_000_000_000, 0);
    FourEras(initial, 4, 312_500_000, 9_375_000_000);
    FourEras(initial, 8, 19_531_250, 9_960_937_500);
    FourEras(initial, 12, 1_220_703, 9_997_558_593);
  }

  /** The reward is one satoshi in the 33rd era and nothing afterwards. */
  lemma LastEra(initial: nat)
    requires initial == INITIAL_SUBSIDY
    ensures EraSubsidy(initial, 32) == 1 && EraSubsidy(initial, 33) == 0 && Eras(initial, 33) == 9_999_999_989
  {
    SixteenEras(initial);
    FourEras(initial, 16, 76_293, 9_999_847_409);
    FourEras(initial, 20, 4_768, 9_999_990_457);
    FourEras(initial, 24, 298, 9_999_999_397);
    FourEras(initial, 28, 18, 9_999_999_955);
    NextEra(initial, 32);
  }

  lemma EraSubsidyPositive(initial: nat, k: nat)
    requires initial == INITIAL_SUBSIDY
    ensures EraSubsidy(initial, k) > 0 <==> k < 33
  {
    LastEra(initial);
    if k < 33 {
      ShiftMonotone(initial, k, 32);
    } else if k < 64 {
      ShiftMonotone(initial, 33, k);
    }
  }

  lemma {:induction false} ErasMonotone(initial: nat, j: nat, k: nat)
    requires j <= k && initial == INITIAL_SUBSIDY
    ensures Eras(initial, j) <= Eras(initial, k) && (j >= 33 ==> Eras(initial, j) == Eras(initial, k))
    decreases k
  {
    if j < k {
      ErasMonotone(initial, j, k - 1);
      EraSubsidyPositive(initial, k - 1);
    }
  }

  /** The full subsidy for the first interval, half of what it was one interval earlier from then on, and nothing
      after sixty-four halvings. */
  lemma SubsidyHalves(initial: nat, height: nat, interval: nat)
    requires interval > 0
    ensures height < interval ==> GetBlockSubsidy(initial, height, interval) == initial
    ensures height < 63 * interval ==>
            GetBlockSubsidy(initial, height + interval, interval) == GetBlockSubsidy(initial, height, interval) / 2
    ensures height >= 64 * interval ==> GetBlockSubsidy(initial, height, interval) == 0
  {
    var q, r := height / interval, height % interval;
    Successor(q, interval);
    UniqueModulus(height + interval, q + 1, r, interval);
    EraBounds(q, r, interval);
    if q < 63 {
      NextEra(initial, q);
    }
  }

  lemma EraBounds(q: int, r: int, interval: int)
    requires 0 <= r < interval
    ensures q * interval + r < interval ==> q <= 0
    ensures q * interval + r < 63 * interval ==> q < 63
    ensures q * interval + r >= 64 * interval ==> q >= 64
  {
    if q >= 1 {
      MulMonotone(1, q, interval);
    }
    if q >= 63 {
      MulMonotone(63, q, interval);
    }
    if q <= 63 {
      MulMonotone(q, 63, interval);
    }
  }

  // ---------------------------------------------------------------------
  // The cap
  // ---------------------------------------------------------------------

  lemma ShortOfCap(done: nat, s: nat, cap: nat, r: nat, interval: nat)
    requires r < interval && s > 0 && done + s <= cap
    ensures done * interval + r * s < cap * interval
  {
    MulMonotone(r + 1, interval, s);
    Successor(r, s);
    MulMonotone(done + s, cap, interval);
    Distribute(done, s, interval);
  }

  /** The supply cap, exactly: never more than the cap, and the cap itself from the end of the 33rd era on. */
  lemma SupplyCap(n: nat, interval: nat)
    requires interval > 0
    ensures Issued(INITIAL_SUBSIDY, n, interval) <= 9_999_999_989 * interval
    ensures Issued(INITIAL_SUBSIDY, n, interval) == 9_999_999_989 * interval <==> n >= 33 * interval
    ensures Issued(INITIAL_SUBSIDY, n, interval) < 2 * (50 * COIN) * interval
  {
    CapFor(INITIAL_SUBSIDY, n, interval);
  }

  lemma CapFor(initial: nat, n: nat, interval: nat)
    requires interval > 0 && initial == INITIAL_SUBSIDY
    ensures Issued(initial, n, interval) <= 9_999_999_989 * interval
    ensures Issued(initial, n, interval) == 9_999_999_989 * interval <==> n >= 33 * interval
  {
    var q, r := n / interval, n % interval;
    IssuedSoFar(initial, n, q, r, interval);
    LastEra(initial);
    EraSubsidyPositive(initial, q);
    if q >= 33 {
      ErasMonotone(initial, 33, q);
      MulMonotone(33, q, interval);
    } else {
      ErasMonotone(initial, q + 1, 33);
      MulMonotone(q + 1, 33, interval);
      Successor(q, interval);
      ShortOfCap(Eras(initial, q), EraSubsidy(initial, q), 9_999_999_989, r, interval);
    }
  }

  lemma IssuedSoFar(initial: nat, n: nat, q: nat, r: nat, interval: nat)
    requires interval > 0 && r < interval && n == q * interval + r
    ensures Issued(initial, n, interval) == Eras(initial, q) * interval + r * EraSubsidy(initial, q)
  {
    MulNonneg(q, interval);
    WholeEras(initial, n - r, q, interval);
    StartedEra(initial, n - r, q, r, interval);
  }

  /** On mainnet the supply ends at 20,999,999.97690000 coins, below the 21 million that bound every amount. */
  lemma MainnetSupply(n: nat)
    ensures Issued(INITIAL_SUBSIDY, n, MAINNET_HALVING_INTERVAL) <= 2_099_999_997_690_000 < MAX_MONEY
    ensures Issued(INITIAL_SUBSIDY, n, MAINNET_HALVING_INTERVAL) == 2_099_999_997_690_000 <==> n >= 6_930_000
  {
    SupplyCap(n, MAINNET_HALVING_INTERVAL);
  }
}
