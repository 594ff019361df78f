/** The Merkle root of a list of hashes, with detection of duplicated subtrees. */
module Merkle {
  import opened Arith
  import opened Wrappers

  /** A 256-bit hash, as a number. */
  type Hash = nat

  const ZERO_HASH: Hash := 0

  /** Hashing two nodes into their parent. */
  type PairHash = (Hash, Hash) -> Hash

  ghost predicate Injective(pair: PairHash) {
    forall a, b, c, d :: pair(a, b) == pair(c, d) ==> a == c && b == d
  }

  // ---------------------------------------------------------------------
  // Specification, level by level
  // ---------------------------------------------------------------------

  /** An odd level repeats its last node. */
  function Padded(s: seq<Hash>): seq<Hash> {
    if |s| % 2 == 1 then s + [s[|s| - 1]] else s
  }

  function Paired(s: seq<Hash>, pair: PairHash): (r: seq<Hash>)
    requires |s| % 2 == 0
    ensures 2 * |r| == |s|
  {
    if s == [] then [] else [pair(s[0], s[1])] + Paired(s[2..], pair)
  }

  lemma {:induction false} PairedAt(s: seq<Hash>, pair: PairHash, i: nat)
    requires |s| % 2 == 0 && 2 * i < |s|
    ensures Paired(s, pair)[i] == pair(s[2 * i], s[2 * i + 1])
  {
    if i > 0 {
      PairedAt(s[2..], pair, i - 1);
    }
  }

  function NextLevel(s: seq<Hash>, pair: PairHash): seq<Hash> {
    Paired(Padded(s), pair)
  }

  /** Two equal siblings, both actually present. */
  ghost predicate TwinsAt(s: seq<Hash>, i: int) {
    0 <= i && 2 * i + 1 < |s| && s[2 * i] == s[2 * i + 1]
  }

  ghost predicate HasTwins(s: seq<Hash>) {
    |s| >= 2 && (s[0] == s[1] || HasTwins(s[2..]))
  }

  lemma {:induction false} HasTwinsIff(s: seq<Hash>)
    ensures HasTwins(s) <==> exists i :: TwinsAt(s, i)
  {
    if |s| >= 2 {
      var rest := s[2..];
      HasTwinsIff(rest);
      if i :| TwinsAt(rest, i) {
        assert TwinsAt(s, i + 1);
      }
      if i :| TwinsAt(s, i) {
        assert i == 0 || TwinsAt(rest, i - 1);
      }
      assert s[0] == s[1] ==> TwinsAt(s, 0);
    }
  }

  ghost function Root(s: seq<Hash>, pair: PairHash): Hash
    decreases |s|
  {
    if s == [] then ZERO_HASH
    else if |s| == 1 then s[0]
    else Root(NextLevel(s, pair), pair)
  }

  /** The flag: some level above the root has twins. */
  ghost predicate Mutated(s: seq<Hash>, pair: PairHash)
    decreases |s|
  {
    |s| > 1 && (HasTwins(s) || Mutated(NextLevel(s, pair), pair))
  }

  /** Levels of the tree below its root. */
  function Levels(n: nat): nat {
    if n <= 1 then 0 else 1 + Levels((n + 1) / 2)
  }

  // ---------------------------------------------------------------------
  // The loop
  // ---------------------------------------------------------------------

  method ComputeMerkleRoot(hashes0: seq<Hash>, pair: PairHash) returns (root: Hash, mutated: bool)
    ensures root == Root(hashes0, pair)
    ensures mutated <==> Mutated(hashes0, pair)
  {
    mutated := false;
    if hashes0 == [] {
      return ZERO_HASH, false;
    }
    var hashes := hashes0;
    while |hashes| > 1
      invariant hashes != [] && Root(hashes, pair) == Root(hashes0, pair)
      invariant mutated || Mutated(hashes, pair) <==> Mutated(hashes0, pair)
      decreases |hashes|
    {
      LevelStep(hashes, pair);
      var twins := FindTwins(hashes);
      mutated := mutated || twins;
      hashes := HashLevel(hashes, pair);
    }
    return hashes[0], mutated;
  }

  lemma LevelStep(s: seq<Hash>, pair: PairHash)
    requires |s| > 1
    ensures 0 < |NextLevel(s, pair)| < |s|
    ensures Root(s, pair) == Root(NextLevel(s, pair), pair)
    ensures Mutated(s, pair) <==> HasTwins(s) || Mutated(NextLevel(s, pair), pair)
  {
  }

  method HashLevel(level: seq<Hash>, pair: PairHash) returns (nextLevel: seq<Hash>)
    ensures nextLevel == NextLevel(level, pair)
  {
    var hashes := level;
    if |hashes| % 2 != 0 {
      hashes := hashes + [hashes[|hashes| - 1]];
    }
    nextLevel := HashPairs(hashes, pair);
  }

  method HashPairs(hashes: seq<Hash>, pair: PairHash) returns (nextLevel: seq<Hash>)
    requires |hashes| % 2 == 0
    ensures nextLevel == Paired(hashes, pair)
  {
    nextLevel := [];
    for i := 0 to |hashes| / 2
      invariant nextLevel == Paired(hashes, pair)[..i]
    {
      PairedAt(hashes, pair, i);
      nextLevel := nextLevel + [pair(hashes[2 * i], hashes[2 * i + 1])];
    }
  }

  /** The duplicate check runs before padding, over complete pairs only. */
  method FindTwins(hashes: seq<Hash>) returns (twins: bool)
    ensures twins <==> HasTwins(hashes)
  {
    twins := false;
    for i := 0 to |hashes| / 2
      invariant twins <==> exists k :: k < i && TwinsAt(hashes, k)
    {
      if hashes[2 * i] == hashes[2 * i + 1] {
        assert TwinsAt(hashes, i);
        twins := true;
      }
    }
    HasTwinsIff(hashes);
  }

  // ---------------------------------------------------------------------
  // An unflagged root determines the list
  // ---------------------------------------------------------------------

  /** Two different pairs with the same hash. */
  predicate Collides(pair: PairHash, c: (Hash, Hash), d: (Hash, Hash)) {
    c != d && pair(c.0, c.1) == pair(d.0, d.1)
  }

  /** Two siblings of one level, after padding. */
  ghost predicate SiblingsAt(s: seq<Hash>, i: nat, c: (Hash, Hash)) {
    2 * i + 1 < |Padded(s)| && c == (Padded(s)[2 * i], Padded(s)[2 * i + 1])
  }

  /** Two siblings of some level of the tree over `s`. */
  ghost predicate Siblings(s: seq<Hash>, pair: PairHash, c: (Hash, Hash))
    decreases |s|
  {
    |s| > 1 && ((exists i: nat :: SiblingsAt(s, i, c)) || Siblings(NextLevel(s, pair), pair, c))
  }

  lemma PairedCollision(s: seq<Hash>, t: seq<Hash>, pair: PairHash) returns (i: nat)
    requires |s| % 2 == 0 && |t| % 2 == 0 && Paired(s, pair) == Paired(t, pair) && s != t
    ensures 2 * i + 1 < |s| == |t| && Collides(pair, (s[2 * i], s[2 * i + 1]), (t[2 * i], t[2 * i + 1]))
  {
    assert |s| == |t|;
    var k :| 0 <= k < |s| && s[k] != t[k];
    i := k / 2;
    PairedAt(s, pair, i);
    PairedAt(t, pair, i);
  }

  /** Padding is only ambiguous when the longer list ends in twins. */
  lemma PaddedInjective(s: seq<Hash>, t: seq<Hash>)
    requires Padded(s) == Padded(t) && !HasTwins(s) && !HasTwins(t)
    ensures s == t
  {
    if |s| < |t| {
      LongerHasTwins(s, t);
    } else if |t| < |s| {
      LongerHasTwins(t, s);
    } else {
      assert s == Padded(s)[..|s|] && t == Padded(t)[..|t|];
    }
  }

  lemma LongerHasTwins(s: seq<Hash>, t: seq<Hash>)
    requires |s| < |t| && Padded(s) == Padded(t)
    ensures HasTwins(t)
  {
    assert |s| % 2 == 1 && t == Padded(s);
    assert TwinsAt(t, |s| / 2);
    HasTwinsIff(t);
  }

  lemma NextLevelLevels(s: seq<Hash>, pair: PairHash)
    requires |s| > 1
    ensures Levels(|s|) == 1 + Levels(|NextLevel(s, pair)|)
  {
    assert |NextLevel(s, pair)| == (|s| + 1) / 2;
  }

  lemma LevelCollision(s: seq<Hash>, t: seq<Hash>, pair: PairHash) returns (c: (Hash, Hash), d: (Hash, Hash))
    requires |s| > 1 && |t| > 1
    requires NextLevel(s, pair) == NextLevel(t, pair) && !HasTwins(s) && !HasTwins(t) && s != t
    ensures Collides(pair, c, d) && Siblings(s, pair, c) && Siblings(t, pair, d)
  {
    var i := PaddedCollision(s, t, pair);
    c, d := (Padded(s)[2 * i], Padded(s)[2 * i + 1]), (Padded(t)[2 * i], Padded(t)[2 * i + 1]);
    assert SiblingsAt(s, i, c) && SiblingsAt(t, i, d);
  }

  lemma PaddedCollision(s: seq<Hash>, t: seq<Hash>, pair: PairHash) returns (i: nat)
    requires NextLevel(s, pair) == NextLevel(t, pair) && !HasTwins(s) && !HasTwins(t) && s != t
    ensures var p, q := Padded(s), Padded(t);
            2 * i + 1 < |p| == |q| && Collides(pair, (p[2 * i], p[2 * i + 1]), (q[2 * i], q[2 * i + 1]))
  {
    if Padded(s) == Padded(t) {
      PaddedInjective(s, t);
    }
    i := PairedCollision(Padded(s), Padded(t), pair);
  }

  lemma SiblingsAbove(s: seq<Hash>, pair: PairHash, c: (Hash, Hash))
    requires |s| > 1 && Siblings(NextLevel(s, pair), pair, c)
    ensures Siblings(s, pair, c)
  {
  }

  /** Different lists with equal roots have at least one level to differ in. */
  lemma SingleRoots(s: seq<Hash>, t: seq<Hash>, pair: PairHash)
    requires s != [] && t != [] && Levels(|s|) == Levels(|t|) && Root(s, pair) == Root(t, pair)
    ensures s == t || (|s| > 1 && |t| > 1)
  {
  }

  /** Equal roots over equally many levels, neither call flagged, different lists: two different pairs of siblings,
      one of each tree, hash alike. */
  lemma {:induction false} EqualRootsCollide(s: seq<Hash>, t: seq<Hash>, pair: PairHash)
    returns (c: (Hash, Hash), d: (Hash, Hash))
    requires s != [] && t != [] && Levels(|s|) == Levels(|t|) && s != t
    requires Root(s, pair) == Root(t, pair) && !Mutated(s, pair) && !Mutated(t, pair)
    ensures Collides(pair, c, d) && Siblings(s, pair, c) && Siblings(t, pair, d)
    decreases |s|
  {
    SingleRoots(s, t, pair);
    var above, above' := NextLevel(s, pair), NextLevel(t, pair);
    LevelStep(s, pair);
    LevelStep(t, pair);
    NextLevelLevels(s, pair);
    NextLevelLevels(t, pair);
    if above != above' {
      c, d := EqualRootsCollide(above, above', pair);
      SiblingsAbove(s, pair, c);
      SiblingsAbove(t, pair, d);
    } else {
      c, d := LevelCollision(s, t, pair);
    }
  }

  /** With a pair hash that never collides the lists are the same. */
  lemma RootDeterminesList(s: seq<Hash>, t: seq<Hash>, pair: PairHash)
    requires Injective(pair) && s != [] && t != [] && Levels(|s|) == Levels(|t|)
    requires Root(s, pair) == Root(t, pair) && !Mutated(s, pair) && !Mutated(t, pair)
    ensures s == t
  {
    if s != t {
      var _, _ := EqualRootsCollide(s, t, pair);
    }
  }

  /** Why the flag exists: repeating the last hash of an odd list keeps the root, and is always flagged. */
  lemma RepeatedTailIsFlagged(s: seq<Hash>, pair: PairHash)
    requires |s| % 2 == 1 && |s| > 1
    ensures Root(s + [s[|s| - 1]], pair) == Root(s, pair)
    ensures Mutated(s + [s[|s| - 1]], pair)
  {
    RepeatedTailPads(s);
    SameLevelAbove(s, s + [s[|s| - 1]], pair);
  }

  lemma RepeatedTailPads(s: seq<Hash>)
    requires |s| % 2 == 1
    ensures Padded(s + [s[|s| - 1]]) == Padded(s) && HasTwins(s + [s[|s| - 1]])
  {
    LongerHasTwins(s, s + [s[|s| - 1]]);
  }

  lemma SameLevelAbove(s: seq<Hash>, t: seq<Hash>, pair: PairHash)
    requires |s| > 1 && |t| > 1 && Padded(s) == Padded(t)
    ensures Root(s, pair) == Root(t, pair)
    ensures HasTwins(t) ==> Mutated(t, pair)
  {
    LevelStep(s, pair);
    LevelStep(t, pair);
  }

  // ---------------------------------------------------------------------
  // Padding alone never sets the flag
  // ---------------------------------------------------------------------

  lemma NextLevelDistinct(s: seq<Hash>, pair: PairHash)
    requires Injective(pair) && Distinct(s)
    ensures Distinct(NextLevel(s, pair))
  {
    var padded, next := Padded(s), NextLevel(s, pair);
    forall i, j | 0 <= i < j < |next| ensures next[i] != next[j] {
      PairedAt(padded, pair, i);
      PairedAt(padded, pair, j);
      assert padded[2 * i] == s[2 * i] && padded[2 * j] == s[2 * j];
    }
  }

  /** Lists of distinct hashes of any length, however often a level is padded, are never flagged. */
  lemma {:induction false} DistinctIsNotFlagged(s: seq<Hash>, pair: PairHash)
    requires Injective(pair) && Distinct(s)
    ensures !Mutated(s, pair)
    decreases |s|
  {
    if |s| > 1 {
      HasTwinsIff(s);
      assert forall i :: !TwinsAt(s, i);
      NextLevelDistinct(s, pair);
      DistinctIsNotFlagged(NextLevel(s, pair), pair);
    }
  }

  // ---------------------------------------------------------------------
  // The tree that the levels build, from the root down
  // ---------------------------------------------------------------------

  /** A node carried up by pairing it with itself. */
  function Lift(node: Hash, levels: nat, pair: PairHash): Hash {
    if levels == 0 then node
    else
      var below := Lift(node, levels - 1, pair);
      pair(below, below)
  }

  lemma {:induction false} LevelsIsLeast(n: nat, k: nat)
    requires n >= 1
    ensures Levels(n) <= k <==> n <= Pow2(k)
    decreases n
  {
    if n > 1 && k > 0 {
      LevelsIsLeast((n + 1) / 2, k - 1);
    }
  }

  lemma {:induction false} LiftFromBelow(node: Hash, levels: nat, pair: PairHash)
    ensures Lift(pair(node, node), levels, pair) == Lift(node, levels + 1, pair)
  {
    if levels == 0 {
      assert Lift(node, 0, pair) == node;
    } else {
      LiftFromBelow(node, levels - 1, pair);
    }
  }

  /** A level splits where a pair ends. */
  lemma LevelSplits(s: seq<Hash>, t: seq<Hash>, pair: PairHash)
    requires |s| % 2 == 0
    ensures NextLevel(s + t, pair) == NextLevel(s, pair) + NextLevel(t, pair)
    ensures HasTwins(s + t) <==> HasTwins(s) || HasTwins(t)
  {
    TwinsSplit(s, t);
    PaddedSplits(s, t);
    PairedSplits(s, Padded(t), pair);
  }

  lemma PaddedSplits(s: seq<Hash>, t: seq<Hash>)
    requires |s| % 2 == 0
    ensures Padded(s) == s && Padded(s + t) == s + Padded(t)
  {
  }

  lemma {:induction false} PairedSplits(s: seq<Hash>, t: seq<Hash>, pair: PairHash)
    requires |s| % 2 == 0 && |t| % 2 == 0
    ensures Paired(s + t, pair) == Paired(s, pair) + Paired(t, pair)
  {
    if s == [] {
      assert s + t == t;
    } else {
      PairedSplits(s[2..], t, pair);
      assert (s + t)[2..] == s[2..] + t;
    }
  }

  lemma {:induction false} TwinsSplit(s: seq<Hash>, t: seq<Hash>)
    requires |s| % 2 == 0
    ensures HasTwins(s + t) <==> HasTwins(s) || HasTwins(t)
  {
    if s == [] {
      assert s + t == t;
    } else {
      TwinsSplit(s[2..], t);
      assert (s + t)[2..] == s[2..] + t;
    }
  }

  /** The node that a part comes to on level `k`. */
  ghost function Carried(t: seq<Hash>, k: nat, pair: PairHash): Hash
    decreases k
  {
    if k == 0 then Root(t, pair) else Carried(NextLevel(t, pair), k - 1, pair)
  }

  /** It is the root of the part, paired with itself until the level is reached. */
  lemma {:induction false} CarriedIsLift(t: seq<Hash>, k: nat, pair: PairHash)
    requires 1 <= |t| <= Pow2(k)
    ensures Levels(|t|) <= k
    ensures Carried(t, k, pair) == Lift(Root(t, pair), k - Levels(|t|), pair)
    decreases k
  {
    LevelsIsLeast(|t|, k);
    if k > 0 {
      var above := NextLevel(t, pair);
      LevelsIsLeast(|above|, k - 1);
      CarriedIsLift(above, k - 1, pair);
      if |t| > 1 {
        LevelStep(t, pair);
        NextLevelLevels(t, pair);
      } else {
        assert above == [pair(t[0], t[0])];
        LiftFromBelow(t[0], k - 1, pair);
      }
    }
  }

  lemma {:induction false} RootLevelUp(s: seq<Hash>, t: seq<Hash>, pair: PairHash)
    requires |s| >= 2 && |s| % 2 == 0
    ensures 2 * |NextLevel(s, pair)| == |s|
    ensures Root(s, pair) == Root(NextLevel(s, pair), pair)
    ensures Root(s + t, pair) == Root(NextLevel(s, pair) + NextLevel(t, pair), pair)
  {
    LevelSplits(s, t, pair);
    LevelStep(s, pair);
    LevelStep(s + t, pair);
  }

  lemma FullLevel(s: seq<Hash>, k: nat, pair: PairHash)
    requires k > 0 && |s| == Pow2(k)
    ensures |s| % 2 == 0 && |s| >= 2 && |NextLevel(s, pair)| == Pow2(k - 1)
  {
    assert |s| == 2 * Pow2(k - 1);
    assert |Padded(s)| == |s|;
  }

  lemma {:induction false} FlagLevelUp(s: seq<Hash>, t: seq<Hash>, pair: PairHash)
    requires |s| >= 2 && |s| % 2 == 0 && |t| >= 1
    ensures Mutated(s, pair) <==> HasTwins(s) || Mutated(NextLevel(s, pair), pair)
    ensures Mutated(t, pair) <==> HasTwins(t) || Mutated(NextLevel(t, pair), pair)
    ensures Mutated(s + t, pair) <==>
            HasTwins(s) || HasTwins(t) || Mutated(NextLevel(s, pair) + NextLevel(t, pair), pair)
  {
    LevelSplits(s, t, pair);
    LevelStep(s, pair);
    LevelStep(s + t, pair);
  }

  lemma PairOfLeaves(s: seq<Hash>, t: seq<Hash>, pair: PairHash)
    requires |s| == |t| == 1
    ensures Root(s + t, pair) == pair(Root(s, pair), Carried(t, 0, pair))
    ensures Mutated(s + t, pair) <==> Mutated(s, pair) || Mutated(t, pair) || Root(s, pair) == Carried(t, 0, pair)
  {
    assert NextLevel(s + t, pair) == [pair(s[0], t[0])];
    assert HasTwins(s + t) <==> s[0] == t[0];
  }

  lemma {:induction false} RootSplits(s: seq<Hash>, t: seq<Hash>, k: nat, pair: PairHash)
    requires |s| == Pow2(k) && 1 <= |t| <= |s|
    ensures Root(s + t, pair) == pair(Root(s, pair), Carried(t, k, pair))
    decreases k
  {
    if k == 0 {
      PairOfLeaves(s, t, pair);
    } else {
      FullLevel(s, k, pair);
      RootLevelUp(s, t, pair);
      RootSplits(NextLevel(s, pair), NextLevel(t, pair), k - 1, pair);
    }
  }

  lemma {:induction false} FlagSplits(s: seq<Hash>, t: seq<Hash>, k: nat, pair: PairHash)
    requires |s| == Pow2(k) && 1 <= |t| <= |s|
    ensures Mutated(s + t, pair) <==>
            Mutated(s, pair) || Mutated(t, pair) || Root(s, pair) == Carried(t, k, pair)
    decreases k
  {
    if k == 0 {
      PairOfLeaves(s, t, pair);
    } else {
      FullLevel(s, k, pair);
      RootLevelUp(s, t, pair);
      FlagLevelUp(s, t, pair);
      FlagSplits(NextLevel(s, pair), NextLevel(t, pair), k - 1, pair);
    }
  }

  /** The root as a tree: the first 2^k hashes are the left subtree, and what follows, if no more than these, is the
      right one, paired with itself until it is as high. The flag is set within one of the subtrees, or by two equal
      subtrees side by side. */
  lemma TreeOfSubtrees(s: seq<Hash>, t: seq<Hash>, k: nat, pair: PairHash)
    requires |s| == Pow2(k) && 1 <= |t| <= |s|
    ensures Levels(|t|) <= k
    ensures Root(s + t, pair) == pair(Root(s, pair), Lift(Root(t, pair), k - Levels(|t|), pair))
    ensures Mutated(s + t, pair) <==>
            || Mutated(s, pair) || Mutated(t, pair)
            || Root(s, pair) == Lift(Root(t, pair), k - Levels(|t|), pair)
  {
    RootSplits(s, t, k, pair);
    FlagSplits(s, t, k, pair);
    CarriedIsLift(t, k, pair);
  }

  /** Two full halves of equal size. */
  lemma RootOfHalves(s: seq<Hash>, t: seq<Hash>, k: nat, pair: PairHash)
    requires |s| == |t| == Pow2(k)
    ensures Root(s + t, pair) == pair(Root(s, pair), Root(t, pair))
    ensures Mutated(s + t, pair) <==> Mutated(s, pair) || Mutated(t, pair) || Root(s, pair) == Root(t, pair)
  {
    RootSplits(s, t, k, pair);
    FlagSplits(s, t, k, pair);
    CarriedFull(t, k, pair);
  }

  lemma {:induction false} CarriedFull(t: seq<Hash>, k: nat, pair: PairHash)
    requires |t| == Pow2(k)
    ensures Carried(t, k, pair) == Root(t, pair)
    decreases k
  {
    if k > 0 {
      FullLevel(t, k, pair);
      LevelStep(t, pair);
      CarriedFull(NextLevel(t, pair), k - 1, pair);
    }
  }
}
