/** What version words say: which blocks signal a deployment, and what a block built on a branch announces. */
module VersionBitsSignals {
  import opened Wrappers
  import opened Chain
  import opened VersionBits
  import opened VersionBitsHistory
  import opened VersionBitsStats

  // ---------------------------------------------------------------------
  // Single bits of a word
  // ---------------------------------------------------------------------

  /** Masking tests the same bit as shifting. */
  ghost predicate MaskTestsBit(v: bv32, s: bv6)
    requires s < 32
  {
    v & ((1 as bv32) << s) != 0 <==> (v >> s) & 1 != 0
  }

  lemma ShiftTwice(v: bv32, s: bv6)
    requires s < 31
    ensures (v >> 1) >> s == v >> (s + 1)
  {
  }

  lemma MaskTwice(s: bv6)
    requires s < 31
    ensures ((1 as bv32) << s) << 1 == (1 as bv32) << (s + 1)
  {
  }

  lemma MaskAcrossShift(v: bv32, m: bv32)
    ensures v & (m << 1) != 0 <==> (v >> 1) & m != 0
  {
  }

  lemma NextBit(v: bv32, s: bv6)
    requires s < 31 && MaskTestsBit(v >> 1, s)
    ensures MaskTestsBit(v, s + 1)
  {
    ShiftTwice(v, s);
    MaskTwice(s);
    MaskAcrossShift(v, (1 as bv32) << s);
  }

  lemma {:induction false} MaskTests(v: bv32, s: bv6)
    requires s < 32
    ensures MaskTestsBit(v, s)
    decreases s
  {
    if s != 0 {
      MaskTests(v >> 1, s - 1);
      NextBit(v, s - 1);
      assert s - 1 + 1 == s;
    }
  }

  lemma MaskIsBit(v: bv32, b: nat)
    requires b < 32
    ensures MaskSet(v, b) <==> HasBit(v, b)
  {
    MaskTests(v, b as bv6);
    assert v >> (b as bv6) == v >> b;
    assert (1 as bv32) << (b as bv6) == (1 as bv32) << b;
  }

  ghost predicate SettingSets(v: bv32, s: bv6, t: bv6)
    requires s < 32 && t < 32
  {
    ((v | ((1 as bv32) << s)) >> t) & 1 != 0 <==> s == t || (v >> t) & 1 != 0
  }

  lemma WordSetBit(v: bv32, s: bv6, t: bv6)
    requires s < 32 && t < 32
    ensures SettingSets(v, s, t)
  {
  }

  lemma HasBitAsWord(v: bv32, b: nat, s: bv6)
    requires b < 32 && s == b as bv6
    ensures HasBit(v, b) <==> (v >> s) & 1 != 0
  {
    assert v >> s == v >> b;
  }

  lemma SetBitAsWord(v: bv32, b: nat, s: bv6)
    requires b < 32 && s == b as bv6
    ensures SetBit(v, b) == v | ((1 as bv32) << s)
  {
    assert (1 as bv32) << s == (1 as bv32) << b;
  }

  lemma SameIndex(b: nat, c: nat)
    requires b < 32 && c < 32
    ensures b as bv6 == c as bv6 <==> b == c
  {
    assert (b as bv6) as nat == b;
    assert (c as bv6) as nat == c;
  }

  /** Setting a bit sets that bit and no other. */
  lemma SetBitSets(v: bv32, b: nat, c: nat)
    requires b < 32 && c < 32
    ensures HasBit(SetBit(v, b), c) <==> b == c || HasBit(v, c)
  {
    var s, t := b as bv6, c as bv6;
    WordSetBit(v, s, t);
    SameIndex(b, c);
    SetBitAsWord(v, b, s);
    HasBitAsWord(v, c, t);
    HasBitAsWord(SetBit(v, b), c, t);
  }

  lemma SetBitBelowTop(v: bv32, b: nat)
    requires b < 29
    ensures SetBit(v, b) & VERSIONBITS_TOP_MASK == v & VERSIONBITS_TOP_MASK
  {
  }

  lemma NoBitYet(bit: nat)
    requires bit < 29
    ensures !HasBit(VERSIONBITS_TOP_BITS, bit)
  {
  }

  lemma TopBits(v: bv32)
    ensures v & VERSIONBITS_TOP_MASK == VERSIONBITS_TOP_BITS <==> v >> 29 == 1
  {
  }

  // ---------------------------------------------------------------------
  // Signalling
  // ---------------------------------------------------------------------

  /** A block signals a deployment exactly when its version starts with the bits 001 and has that bit set. */
  lemma SignalsByVersion(dep: Bip9Deployment, arena: Arena, i: nat)
    requires DeploymentOk(dep) && i < |arena|
    ensures KnownSignals(dep, arena)(i) <==> arena[i].version >> 29 == 1 && HasBit(arena[i].version, dep.bit)
  {
    TopBits(arena[i].version);
    MaskIsBit(arena[i].version, dep.bit);
  }

  /** Deployment `d` uses `bit` and is being signalled or locked in for the block after `prev`. */
  ghost predicate Announces(deps: seq<Bip9Deployment>, arena: Arena, prev: Option<nat>, bit: nat, d: nat)
    requires Linked(arena) && PrevOk(arena, prev)
  {
    && d < |deps| && DeploymentOk(deps[d]) && deps[d].bit == bit
    && (KnownState(deps[d], arena, prev) == Started || KnownState(deps[d], arena, prev) == LockedIn)
  }

  ghost predicate Announced(deps: seq<Bip9Deployment>, arena: Arena, prev: Option<nat>, bit: nat)
    requires Linked(arena) && PrevOk(arena, prev)
  {
    exists d: nat :: Announces(deps, arena, prev, bit, d)
  }

  lemma AnnouncedStep(deps: seq<Bip9Deployment>, arena: Arena, prev: Option<nat>, bit: nat)
    requires Linked(arena) && PrevOk(arena, prev) && deps != []
    ensures var n := |deps| - 1;
            Announced(deps, arena, prev, bit) <==>
            Announced(deps[..n], arena, prev, bit) || Announces(deps, arena, prev, bit, n)
  {
    var n := |deps| - 1;
    forall d: nat | d < n
      ensures Announces(deps, arena, prev, bit, d) <==> Announces(deps[..n], arena, prev, bit, d)
    {
    }
    if Announced(deps, arena, prev, bit) {
      var d: nat :| Announces(deps, arena, prev, bit, d);
      assert d < n ==> Announces(deps[..n], arena, prev, bit, d);
    }
    if Announced(deps[..n], arena, prev, bit) {
      var d: nat :| Announces(deps[..n], arena, prev, bit, d);
      assert Announces(deps, arena, prev, bit, d);
    }
  }

  /** The version for a new block starts with 001 and sets exactly the bits of the deployments that are started or
      locked in. */
  lemma {:induction false} ExpectedVersionBits(deps: seq<Bip9Deployment>, arena: Arena, prev: Option<nat>, bit: nat)
    requires Linked(arena) && PrevOk(arena, prev) && bit < 29
    requires forall d :: 0 <= d < |deps| ==> DeploymentOk(deps[d]) && deps[d].bit < 29
    ensures var version := ExpectedVersion(deps, arena, prev);
            && version & VERSIONBITS_TOP_MASK == VERSIONBITS_TOP_BITS
            && (HasBit(version, bit) <==> Announced(deps, arena, prev, bit))
    decreases |deps|
  {
    if deps == [] {
      NoBitYet(bit);
    } else {
      var n := |deps| - 1;
      var last, rest := deps[n], ExpectedVersion(deps[..n], arena, prev);
      ExpectedVersionBits(deps[..n], arena, prev, bit);
      AnnouncedStep(deps, arena, prev, bit);
      if KnownState(last, arena, prev) == Started || KnownState(last, arena, prev) == LockedIn {
        SetBitSets(rest, last.bit, bit);
        SetBitBelowTop(rest, last.bit);
      }
    }
  }

  /** A block that carries the expected version signals a deployment exactly when one with its bit is started or locked
      in. */
  lemma BuiltBlockSignals(deps: seq<Bip9Deployment>, arena: Arena, prev: Option<nat>, dep: Bip9Deployment)
    requires Linked(arena) && PrevOk(arena, prev) && dep.bit < 29
    requires forall d :: 0 <= d < |deps| ==> DeploymentOk(deps[d]) && deps[d].bit < 29
    ensures ConditionVersion(dep, ExpectedVersion(deps, arena, prev)) <==> Announced(deps, arena, prev, dep.bit)
  {
    ExpectedVersionBits(deps, arena, prev, dep.bit);
    MaskIsBit(ExpectedVersion(deps, arena, prev), dep.bit);
  }

  /** The warning machine for a bit is signalled by the blocks, from the warning height on, that start with 001 and set
      the bit although the version expected of them does not. */
  lemma WarningByVersion(params: ChainParams, bit: nat, arena: Arena, i: nat)
    requires Linked(arena) && ParamsOk(params) && bit < 29 && i < |arena|
    requires forall d :: 0 <= d < |params.deployments| ==> params.deployments[d].bit < 29
    ensures PrevOk(arena, arena[i].prev)
    ensures Signals(WarningBits(params, bit), arena)(i) <==>
            && arena[i].height >= params.minBip9WarningHeight
            && arena[i].version >> 29 == 1 && HasBit(arena[i].version, bit)
            && !Announced(params.deployments, arena, arena[i].prev, bit)
  {
    assert LinkedAt(arena, i);
    TopBits(arena[i].version);
    ExpectedVersionBits(params.deployments, arena, arena[i].prev, bit);
  }

  // ---------------------------------------------------------------------
  // Counting
  // ---------------------------------------------------------------------

  /** The positions, oldest first, of the signalling blocks among the last `n` up to `idx`. */
  ghost function SignallingAt(arena: Arena, signals: nat -> bool, idx: nat, n: nat): set<int>
    requires Linked(arena) && idx < |arena| && n <= arena[idx].height + 1
  {
    set k | 0 <= k < n && signals(BlockOf(arena, idx, n, k))
  }

  lemma BlockOfParent(arena: Arena, idx: nat, n: nat, k: nat)
    requires Linked(arena) && idx < |arena| && k < n - 1 && n <= arena[idx].height + 1
    ensures arena[idx].prev.Some? && arena[idx].prev.value < |arena|
    ensures n - 1 <= arena[arena[idx].prev.value].height + 1
    ensures BlockOf(arena, idx, n, k) == BlockOf(arena, arena[idx].prev.value, n - 1, k)
  {
    assert LinkedAt(arena, idx);
    BackInRange(arena, idx, n - 1 - k);
  }

  /** The count is the number of blocks that signal, each counted once. */
  lemma {:induction false} SignallingCounts(arena: Arena, signals: nat -> bool, idx: nat, n: nat)
    requires Linked(arena) && idx < |arena| && n <= arena[idx].height + 1
    ensures Signalling(arena, signals, Some(idx), n) == |SignallingAt(arena, signals, idx, n)|
    decreases n
  {
    assert LinkedAt(arena, idx);
    if n == 1 {
      assert BlockOf(arena, idx, 1, 0) == idx;
      assert SignallingAt(arena, signals, idx, 1) == if signals(idx) then {0} else {};
    } else if n > 1 {
      SignallingCounts(arena, signals, arena[idx].prev.value, n - 1);
      OneMorePosition(arena, signals, idx, n);
    }
  }

  lemma OneMorePosition(arena: Arena, signals: nat -> bool, idx: nat, n: nat)
    requires Linked(arena) && idx < |arena| && 1 < n <= arena[idx].height + 1
    ensures arena[idx].prev.Some? && arena[idx].prev.value < |arena|
    ensures n - 1 <= arena[arena[idx].prev.value].height + 1
    ensures var before := SignallingAt(arena, signals, arena[idx].prev.value, n - 1);
            && n - 1 !in before
            && SignallingAt(arena, signals, idx, n) == if signals(idx) then before + {n - 1} else before
  {
    assert LinkedAt(arena, idx);
    var p := arena[idx].prev.value;
    forall k | 0 <= k < n - 1 ensures BlockOf(arena, idx, n, k) == BlockOf(arena, p, n - 1, k) {
      BlockOfParent(arena, idx, n, k);
    }
    assert BlockOf(arena, idx, n, n - 1) == idx;
  }
}
