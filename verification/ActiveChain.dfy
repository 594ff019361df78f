/** The active chain: one branch of the block tree as a vector of arena indices by height. */
module ActiveChain {
  import opened Wrappers
  import opened Chain

  /** Entry `h` is a block of height `h` whose parent is entry `h - 1`. */
  ghost predicate PrevLinkedAt(arena: Arena, chain: seq<nat>, h: nat)
    requires h < |chain|
  {
    && chain[h] < |arena| && arena[chain[h]].height == h
    && (h > 0 ==> arena[chain[h]].prev == Some(chain[h - 1]))
  }

  ghost predicate PrevLinked(arena: Arena, chain: seq<nat>) {
    forall h :: 0 <= h < |chain| ==> PrevLinkedAt(arena, chain, h)
  }

  /** The chain of `tip`: each height up to the tip's holds the tip's ancestor there. */
  ghost predicate IsBranchOf(arena: Arena, chain: seq<nat>, tip: nat)
    requires tip < |arena|
  {
    && |chain| == arena[tip].height + 1
    && forall h :: 0 <= h < |chain| ==> Some(chain[h]) == AncestorAt(arena, tip, h)
  }

  /** In a linked chain every lower entry is the ancestor of every higher one. */
  lemma {:induction false} LinkedEntries(arena: Arena, chain: seq<nat>, h: nat, k: nat)
    requires PrevLinked(arena, chain) && k <= h < |chain|
    ensures chain[h] < |arena| && AncestorAt(arena, chain[h], k) == Some(chain[k])
    decreases h
  {
    assert PrevLinkedAt(arena, chain, h);
    if k < h {
      LinkedEntries(arena, chain, h - 1, k);
      assert PrevLinkedAt(arena, chain, h - 1);
    }
  }

  /** A chain is linked exactly when it is the branch of its last block. */
  lemma LinkedIffBranch(arena: Arena, chain: seq<nat>)
    requires Linked(arena) && chain != []
    ensures PrevLinked(arena, chain) <==> chain[|chain| - 1] < |arena| && IsBranchOf(arena, chain, chain[|chain| - 1])
  {
    var tip := chain[|chain| - 1];
    if PrevLinked(arena, chain) {
      assert PrevLinkedAt(arena, chain, |chain| - 1);
      forall h | 0 <= h < |chain| ensures Some(chain[h]) == AncestorAt(arena, tip, h) {
        LinkedEntries(arena, chain, |chain| - 1, h);
      }
    }
    if tip < |arena| && IsBranchOf(arena, chain, tip) {
      BranchIsLinked(arena, chain, tip);
    }
  }

  lemma BranchIsLinked(arena: Arena, chain: seq<nat>, tip: nat)
    requires Linked(arena) && tip < |arena| && IsBranchOf(arena, chain, tip)
    ensures PrevLinked(arena, chain)
  {
    forall h | 0 <= h < |chain| ensures PrevLinkedAt(arena, chain, h) {
      AncestorOfAncestor(arena, tip, h, h);
      assert Some(chain[h]) == AncestorAt(arena, tip, h);
      if h > 0 {
        ParentIsNextAncestor(arena, tip, h);
        assert Some(chain[h - 1]) == AncestorAt(arena, tip, h - 1);
      }
    }
  }

  lemma ParentIsNextAncestor(arena: Arena, tip: nat, h: nat)
    requires Linked(arena) && tip < |arena| && 0 < h <= arena[tip].height
    ensures AncestorAt(arena, tip, h).Some? && AncestorAt(arena, tip, h).value < |arena|
    ensures arena[AncestorAt(arena, tip, h).value].height == h
    ensures arena[AncestorAt(arena, tip, h).value].prev == AncestorAt(arena, tip, h - 1)
  {
    AncestorOfAncestor(arena, tip, h, h - 1);
    var at := AncestorAt(arena, tip, h).value;
    assert LinkedAt(arena, at);
    assert AncestorAt(arena, at, h - 1) == Back(arena, at, 1) == Back(arena, arena[at].prev.value, 0);
  }

  /** A linked chain stays linked while the arena grows. */
  lemma LinkedSurvivesGrowth(arena: Arena, more: Arena, chain: seq<nat>)
    requires PrevLinked(arena, chain)
    ensures PrevLinked(arena + more, chain)
  {
    forall h | 0 <= h < |chain| ensures PrevLinkedAt(arena + more, chain, h) {
      assert PrevLinkedAt(arena, chain, h);
    }
  }

  /** The vector cut or padded with 0 to a new length. */
  function Resized(chain: seq<nat>, len: nat): (r: seq<nat>)
    ensures |r| == len
  {
    seq(len, i requires 0 <= i < len => if i < |chain| then chain[i] else 0)
  }

  /** Where the walk may stop: an entry of the resized vector that is already the tip's ancestor has only the tip's
      ancestors below it.  Padding cannot be taken for a match above height 0 because block 0 has height 0. */
  lemma EarlyStop(arena: Arena, chain: seq<nat>, len: nat, tip: nat, h: nat, k: nat)
    requires Linked(arena) && tip < |arena| && arena[0].height == 0 && PrevLinked(arena, chain)
    requires k <= h <= arena[tip].height && h < len && Some(Resized(chain, len)[h]) == AncestorAt(arena, tip, h)
    ensures Some(Resized(chain, len)[k]) == AncestorAt(arena, tip, k)
  {
    AncestorOfAncestor(arena, tip, h, k);
    if h < |chain| {
      LinkedEntries(arena, chain, h, k);
    }
  }

  class ActiveChain {
    var chain: seq<nat>

    constructor ()
      ensures chain == []
    {
      chain := [];
    }

    function Height(): int
      reads this
    {
      |chain| - 1
    }

    /** Moves to another tip, rewriting only down to the first entry that already matches. */
    method SetTipWith(arena: Arena, tip: nat, tipHeight: int)
      requires Linked(arena) && PrevLinked(arena, chain)
      requires tipHeight >= 0 ==> tip < |arena| && arena[tip].height == tipHeight && arena[0].height == 0
      modifies this
      ensures PrevLinked(arena, chain)
      ensures tipHeight < 0 ==> chain == []
      ensures tipHeight >= 0 ==> IsBranchOf(arena, chain, tip)
    {
      if tipHeight < 0 {
        chain := [];
        return;
      }
      ghost var before := chain;
      chain := Resized(chain, tipHeight + 1);
      ghost var padded := chain;
      var current, h := tip, tipHeight;
      while h >= 0
        invariant -1 <= h <= tipHeight && |chain| == tipHeight + 1
        invariant h >= 0 ==> Some(current) == AncestorAt(arena, tip, h) && current < |arena|
        invariant forall k :: 0 <= k <= h ==> chain[k] == padded[k]
        invariant forall k :: h < k <= tipHeight ==> Some(chain[k]) == AncestorAt(arena, tip, k)
      {
        if chain[h] == current && h < tipHeight {
          forall k | 0 <= k <= h ensures Some(chain[k]) == AncestorAt(arena, tip, k) {
            EarlyStop(arena, before, tipHeight + 1, tip, h, k);
          }
          break;
        }
        chain := chain[h := current];
        AncestorOfAncestor(arena, tip, h, h);
        assert LinkedAt(arena, current);
        if arena[current].prev.None? {
          break;
        }
        ParentIsNextAncestor(arena, tip, h);
        current, h := arena[current].prev.value, h - 1;
      }
      BranchIsLinked(arena, chain, tip);
    }

    /** The greatest height up to which the two chains agree everywhere; `None` when they share no block.  The blocks
        the chains share are exactly those up to that height. */
    method FindFork(other: ActiveChain, ghost arena: Arena) returns (r: Option<int>)
      requires Linked(arena) && PrevLinked(arena, chain) && PrevLinked(arena, other.chain)
      ensures r.Some? ==>
                && 0 <= r.value < |chain| && r.value < |other.chain|
                && chain[..r.value + 1] == other.chain[..r.value + 1]
                && (r.value + 1 < |chain| && r.value + 1 < |other.chain| ==>
                      chain[r.value + 1] != other.chain[r.value + 1])
      ensures forall b :: b in chain && b in other.chain <==> r.Some? && b in chain[..r.value + 1]
    {
      var minHeight := if Height() < other.Height() then Height() else other.Height();
      var h := minHeight;
      while h >= 0
        invariant -1 <= h <= minHeight
        invariant forall k :: h < k <= minHeight ==> chain[k] != other.chain[k]
      {
        if chain[h] == other.chain[h] {
          AgreeBelow(arena, chain, other.chain, h);
          SharedBlocks(arena, chain, other.chain, h);
          return Some(h);
        }
        h := h - 1;
      }
      SharedBlocks(arena, chain, other.chain, -1);
      return None;
    }
  }

  lemma AgreeBelow(arena: Arena, a: seq<nat>, b: seq<nat>, h: nat)
    requires PrevLinked(arena, a) && PrevLinked(arena, b) && h < |a| && h < |b| && a[h] == b[h]
    ensures a[..h + 1] == b[..h + 1]
  {
    forall k | 0 <= k < h + 1 ensures a[k] == b[k] {
      LinkedEntries(arena, a, h, k);
      LinkedEntries(arena, b, h, k);
    }
  }

  lemma SharedBlocks(arena: Arena, a: seq<nat>, b: seq<nat>, h: int)
    requires PrevLinked(arena, a) && PrevLinked(arena, b) && -1 <= h < |a| && h < |b|
    requires a[..h + 1] == b[..h + 1]
    requires forall k :: h < k < |a| && k < |b| ==> a[k] != b[k]
    ensures forall x :: x in a && x in b <==> x in a[..h + 1]
  {
    forall x | x in a && x in b ensures x in a[..h + 1] {
      var i :| 0 <= i < |a| && a[i] == x;
      var j :| 0 <= j < |b| && b[j] == x;
      assert PrevLinkedAt(arena, a, i) && PrevLinkedAt(arena, b, j);
      assert a[i] == a[..h + 1][i];
    }
    forall x | x in a[..h + 1] ensures x in a && x in b {
      assert x in b[..h + 1];
    }
  }
}
