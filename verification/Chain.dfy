/** The block-index arena: `prev` links, the bit-twiddled skip list laid over
    them, and median-time-past.

    A block is named by its arena index.  The arena is a tree: every block but a
    genesis block has a parent, and several blocks may share one. */
module Chain {
  import opened Arith
  import opened Wrappers

  const MEDIAN_TIME_SPAN: nat := 11

  datatype BlockIndex = BlockIndex(
    version: bv32,
    time: nat,
    height: int,
    prev: Option<nat>,
    skip: Option<nat>)

  type Arena = seq<BlockIndex>

  // ---------------------------------------------------------------------
  // Following `prev` links
  // ---------------------------------------------------------------------

  /** Heights follow `prev`: a root has height 0, a child is one above its parent. */
  ghost predicate Linked(arena: Arena) {
    forall i :: 0 <= i < |arena| ==> LinkedAt(arena, i)
  }

  ghost predicate LinkedAt(arena: Arena, i: nat)
    requires i < |arena|
  {
    match arena[i].prev
    case None => arena[i].height == 0
    case Some(p) => p < |arena| && arena[p].height >= 0 && arena[i].height == arena[p].height + 1
  }

  /** The block reached from `i` by following `prev` exactly `n` times. */
  ghost function Back(arena: Arena, i: nat, n: nat): Option<nat>
    decreases n
  {
    if i >= |arena| then None
    else if n == 0 then Some(i)
    else match arena[i].prev
      case None => None
      case Some(p) => Back(arena, p, n - 1)
  }

  /** The ancestor of `i` at height `h`; `None` for a height that is negative or above `i`. */
  ghost function AncestorAt(arena: Arena, i: nat, h: int): Option<nat>
    requires i < |arena|
  {
    if 0 <= h <= arena[i].height then Back(arena, i, arena[i].height - h) else None
  }

  lemma {:induction false} BackInRange(arena: Arena, i: nat, n: nat)
    requires Linked(arena) && i < |arena| && n <= arena[i].height
    ensures Back(arena, i, n).Some?
    ensures Back(arena, i, n).value < |arena|
    ensures arena[Back(arena, i, n).value].height == arena[i].height - n
    decreases n
  {
    assert LinkedAt(arena, i);
    if n > 0 {
      BackInRange(arena, arena[i].prev.value, n - 1);
    }
  }

  lemma {:induction false} BackCompose(arena: Arena, i: nat, m: nat, n: nat)
    requires Linked(arena) && i < |arena| && m + n <= arena[i].height
    ensures Back(arena, i, m).Some?
    ensures Back(arena, i, m + n) == Back(arena, Back(arena, i, m).value, n)
    decreases m
  {
    assert LinkedAt(arena, i);
    if m > 0 {
      BackCompose(arena, arena[i].prev.value, m - 1, n);
    }
  }

  /** Looking up an ancestor of an ancestor is looking it up directly. */
  lemma AncestorOfAncestor(arena: Arena, i: nat, mid: int, h: int)
    requires Linked(arena) && i < |arena| && 0 <= h <= mid <= arena[i].height
    ensures AncestorAt(arena, i, mid).Some? && AncestorAt(arena, i, mid).value < |arena|
    ensures arena[AncestorAt(arena, i, mid).value].height == mid
    ensures AncestorAt(arena, AncestorAt(arena, i, mid).value, h) == AncestorAt(arena, i, h)
  {
    BackInRange(arena, i, arena[i].height - mid);
    BackCompose(arena, i, arena[i].height - mid, mid - h);
  }

  lemma {:induction false} BackFrame(arena: Arena, more: Arena, i: nat, n: nat)
    requires Linked(arena) && i < |arena|
    ensures Back(arena + more, i, n) == Back(arena, i, n)
    decreases n
  {
    assert LinkedAt(arena, i);
    assert (arena + more)[i] == arena[i];
    if n > 0 && arena[i].prev.Some? {
      BackFrame(arena, more, arena[i].prev.value, n - 1);
    }
  }

  // ---------------------------------------------------------------------
  // The skip list
  // ---------------------------------------------------------------------

  /** Bitwise conjunction on naturals. */
  function BitAnd(a: nat, b: nat): (r: nat)
    ensures r <= a && r <= b
  {
    if a == 0 || b == 0 then 0
    else 2 * BitAnd(a / 2, b / 2) + (if a % 2 == 1 && b % 2 == 1 then 1 else 0)
  }

  /** `n & (n - 1)`: clears the lowest set bit. */
  function InvertLowestOne(n: nat): (r: nat)
    ensures n > 0 ==> r < n
  {
    if n == 0 then 0 else BitAnd(n, n - 1)
  }

  function GetSkipHeight(height: int): (r: nat)
    ensures height > 0 ==> r < height
  {
    if height < 2 then 0
    else if height % 2 != 0 then InvertLowestOne(InvertLowestOne(height - 1)) + 1
    else InvertLowestOne(height)
  }

  /** The greatest power of two that divides a number. */
  ghost function LowestOne(n: nat): (r: nat)
    requires n > 0
    ensures 1 <= r <= n
  {
    if n % 2 == 1 then 1 else 2 * LowestOne(n / 2)
  }

  lemma {:induction false} BitAndSelf(n: nat)
    ensures BitAnd(n, n) == n
  {
    if n > 0 {
      BitAndSelf(n / 2);
    }
  }

  lemma {:induction false} ClearsLowestOne(n: nat)
    requires n > 0
    ensures InvertLowestOne(n) == n - LowestOne(n)
  {
    if n % 2 == 1 {
      BitAndSelf(n / 2);
    } else {
      ClearsLowestOne(n / 2);
      assert (n - 1) / 2 == n / 2 - 1;
    }
  }

  /** From an even height the skip clears the lowest set bit; from an odd one it keeps the last bit and clears the two
      lowest of the others. */
  lemma SkipHeightIs(height: nat)
    requires height >= 2
    ensures height % 2 == 0 ==> GetSkipHeight(height) == height - LowestOne(height)
    ensures height % 2 == 1 ==>
            var once := height - 1 - LowestOne(height - 1);
            GetSkipHeight(height) == 1 + if once == 0 then 0 else once - LowestOne(once)
  {
    if height % 2 == 0 {
      ClearsLowestOne(height);
    } else {
      ClearsLowestOne(height - 1);
      var once := height - 1 - LowestOne(height - 1);
      if once > 0 {
        ClearsLowestOne(once);
      }
    }
  }

  lemma {:induction false} LowestOneOf(k: nat, j: nat)
    ensures Pow2(k) * (2 * j + 1) > 0 && LowestOne(Pow2(k) * (2 * j + 1)) == Pow2(k)
    decreases k
  {
    if k > 0 {
      LowestOneOf(k - 1, j);
      MulAssociates(2, Pow2(k - 1), 2 * j + 1);
      LowestOneDoubles(Pow2(k - 1) * (2 * j + 1));
    }
  }

  lemma LowestOneDoubles(n: nat)
    requires n > 0
    ensures LowestOne(2 * n) == 2 * LowestOne(n)
  {
  }

  /** Every skip pointer that is present leads to the ancestor at `GetSkipHeight`. */
  ghost predicate SkipsOk(arena: Arena) {
    forall i :: 0 <= i < |arena| ==> SkipOkAt(arena, i)
  }

  ghost predicate SkipOkAt(arena: Arena, i: nat)
    requires i < |arena|
  {
    arena[i].skip.Some? ==> arena[i].height > 0 && arena[i].skip == AncestorAt(arena, i, GetSkipHeight(arena[i].height))
  }

  method GetAncestor(arena: Arena, arenaIdx: nat, targetHeight: int) returns (r: Option<nat>)
    requires Linked(arena) && SkipsOk(arena)
    ensures r == if arenaIdx < |arena| then AncestorAt(arena, arenaIdx, targetHeight) else None
  {
    if arenaIdx >= |arena| {
      return None;
    }
    var block := arena[arenaIdx];
    if targetHeight > block.height || targetHeight < 0 {
      return None;
    }
    var walkIdx: nat, walkHeight := arenaIdx, block.height;
    while walkHeight > targetHeight
      invariant walkIdx < |arena| && arena[walkIdx].height == walkHeight >= targetHeight
      invariant AncestorAt(arena, walkIdx, targetHeight) == AncestorAt(arena, arenaIdx, targetHeight)
      decreases walkHeight
    {
      var skipHeight := GetSkipHeight(walkHeight);
      assert LinkedAt(arena, walkIdx);
      if arena[walkIdx].skip.Some? {
        var skipPrevHeight := GetSkipHeight(walkHeight - 1);
        if skipHeight == targetHeight
           || (skipHeight > targetHeight
               && !(skipPrevHeight < skipHeight - 2 && skipPrevHeight >= targetHeight))
        {
          assert SkipOkAt(arena, walkIdx);
          AncestorOfAncestor(arena, walkIdx, skipHeight, targetHeight);
          walkIdx, walkHeight := arena[walkIdx].skip.value, skipHeight;
          continue;
        }
      }
      AncestorOfAncestor(arena, walkIdx, walkHeight - 1, targetHeight);
      BackInRange(arena, walkIdx, 1);
      walkIdx := arena[walkIdx].prev.value;
      walkHeight := walkHeight - 1;
    }
    return Some(walkIdx);
  }

  // ---------------------------------------------------------------------
  // Median time past
  // ---------------------------------------------------------------------

  /** Times of `idx` and its ancestors, newest first, at most `k` of them. */
  function Window(arena: Arena, idx: Option<nat>, k: nat): (times: seq<int>)
    ensures |times| <= k
    decreases k, arena
  {
    if k == 0 || idx.None? || idx.value >= |arena| then []
    else [arena[idx.value].time] + Window(arena, arena[idx.value].prev, k - 1)
  }

  method CollectMtpAncestors(arena: Arena, arenaIdx: nat) returns (times: seq<int>)
    ensures times == Window(arena, Some(arenaIdx), MEDIAN_TIME_SPAN)
  {
    times := [];
    var idx: Option<nat> := Some(arenaIdx);
    for n := 0 to MEDIAN_TIME_SPAN
      invariant times + Window(arena, idx, MEDIAN_TIME_SPAN - n)
             == Window(arena, Some(arenaIdx), MEDIAN_TIME_SPAN)
    {
      if idx.None? || idx.value >= |arena| {
        return;
      }
      var block := arena[idx.value];
      OneMore(times, block.time, Window(arena, block.prev, MEDIAN_TIME_SPAN - n - 1));
      times := times + [block.time];
      idx := block.prev;
    }
  }

  lemma OneMore(a: seq<int>, x: int, b: seq<int>)
    ensures a + ([x] + b) == (a + [x]) + b
  {
  }

  ghost predicate Ascending(s: seq<int>) {
    forall i :: 0 < i < |s| ==> s[i - 1] <= s[i]
  }

  function InsertSorted(x: int, s: seq<int>): (r: seq<int>)
    ensures |r| == |s| + 1
    ensures r[0] == if s == [] || x <= s[0] then x else s[0]
    ensures Ascending(s) ==> Ascending(r)
  {
    if s == [] || x <= s[0] then [x] + s
    else [s[0]] + InsertSorted(x, s[1..])
  }

  function Sorted(s: seq<int>): (r: seq<int>)
    ensures |r| == |s| && Ascending(r)
  {
    if s == [] then [] else InsertSorted(s[0], Sorted(s[1..]))
  }

  lemma {:induction false} InsertKeepsElements(x: int, s: seq<int>)
    ensures multiset(InsertSorted(x, s)) == multiset(s) + multiset{x}
  {
    if s != [] && x > s[0] {
      InsertKeepsElements(x, s[1..]);
      assert s == [s[0]] + s[1..];
    }
  }

  /** Sorting only permutes. */
  lemma {:induction false} SortedIsPermutation(s: seq<int>)
    ensures multiset(Sorted(s)) == multiset(s)
  {
    if s != [] {
      SortedIsPermutation(s[1..]);
      InsertKeepsElements(s[0], Sorted(s[1..]));
      assert s == [s[0]] + s[1..];
    }
  }

  /** The upper median; 0 for no times at all. */
  function MedianTimePast(times: seq<int>): int {
    if times == [] then 0 else Sorted(times)[|times| / 2]
  }

  function ComputeMtp(arena: Arena, arenaIdx: nat): int {
    MedianTimePast(Window(arena, Some(arenaIdx), MEDIAN_TIME_SPAN))
  }

  /** How many entries of `s` are below `v`. */
  ghost function CountBelow(s: seq<int>, v: int): nat {
    if s == [] then 0 else (if s[0] < v then 1 else 0) + CountBelow(s[1..], v)
  }

  lemma {:induction false} CountBelowAppend(s: seq<int>, t: seq<int>, v: int)
    ensures CountBelow(s + t, v) == CountBelow(s, v) + CountBelow(t, v)
  {
    if s == [] {
      assert s + t == t;
    } else {
      assert (s + t)[1..] == s[1..] + t;
      CountBelowAppend(s[1..], t, v);
    }
  }

  lemma {:induction false} CountBelowInsert(x: int, s: seq<int>, v: int)
    ensures CountBelow(InsertSorted(x, s), v) == (if x < v then 1 else 0) + CountBelow(s, v)
  {
    if s == [] || x <= s[0] {
      assert ([x] + s)[1..] == s;
    } else {
      CountBelowInsert(x, s[1..], v);
      assert ([s[0]] + InsertSorted(x, s[1..]))[1..] == InsertSorted(x, s[1..]);
    }
  }

  lemma {:induction false} CountBelowSorted(s: seq<int>, v: int)
    ensures CountBelow(Sorted(s), v) == CountBelow(s, v)
  {
    if s != [] {
      CountBelowSorted(s[1..], v);
      CountBelowInsert(s[0], Sorted(s[1..]), v);
    }
  }

  /** Rank in an ascending sequence: entry `k` is at least `v` exactly when at most `k` entries are below `v`. */
  lemma {:induction false} RankOfAscending(s: seq<int>, v: int, k: nat)
    requires Ascending(s) && k < |s|
    ensures s[k] >= v <==> CountBelow(s, v) <= k
  {
    if s[0] >= v {
      NoneBelow(s, v, k);
    } else if k > 0 {
      RankOfAscending(s[1..], v, k - 1);
    }
  }

  lemma {:induction false} NoneBelow(s: seq<int>, v: int, k: nat)
    requires Ascending(s) && k < |s| && s[0] >= v
    ensures CountBelow(s, v) == 0 && s[k] >= v
  {
    if |s| > 1 {
      NoneBelow(s[1..], v, if k > 0 then k - 1 else 0);
    }
  }

  lemma MedianByRank(times: seq<int>, v: int)
    requires times != []
    ensures MedianTimePast(times) >= v <==> CountBelow(times, v) <= |times| / 2
  {
    RankOfAscending(Sorted(times), v, |times| / 2);
    CountBelowSorted(times, v);
  }

  /** Sliding a window forward over a time not below its median cannot lower the median. */
  lemma SlidingMedian(t: int, times: seq<int>, keep: nat)
    requires times != [] && t >= MedianTimePast(times)
    requires keep <= |times| && (keep == |times| || keep + 1 == |times|)
    ensures MedianTimePast([t] + times[..keep]) >= MedianTimePast(times)
  {
    var v := MedianTimePast(times);
    var slid := [t] + times[..keep];
    assert times == times[..keep] + times[keep..];
    CountBelowAppend(times[..keep], times[keep..], v);
    CountBelowAppend([t], times[..keep], v);
    MedianByRank(times, v);
    MedianByRank(slid, v);
  }

  lemma {:induction false} WindowTake(arena: Arena, idx: Option<nat>, j: nat, k: nat)
    requires j <= k
    ensures var longer := Window(arena, idx, k);
            Window(arena, idx, j) == if |longer| <= j then longer else longer[..j]
    decreases k
  {
    if j > 0 && idx.Some? && idx.value < |arena| {
      WindowTake(arena, arena[idx.value].prev, j - 1, k - 1);
    }
  }

  /** The window of a block holds its own time and those of its nearest ancestors, newest first. */
  lemma {:induction false} WindowTimes(arena: Arena, i: nat, k: nat, j: nat)
    requires Linked(arena) && i < |arena|
    ensures |Window(arena, Some(i), k)| == if k <= arena[i].height then k else arena[i].height + 1
    ensures j < |Window(arena, Some(i), k)| ==>
            Back(arena, i, j).Some? && Back(arena, i, j).value < |arena|
            && Window(arena, Some(i), k)[j] == arena[Back(arena, i, j).value].time
    decreases k
  {
    assert LinkedAt(arena, i);
    if k > 0 && arena[i].prev.Some? {
      WindowTimes(arena, arena[i].prev.value, k - 1, if j > 0 then j - 1 else 0);
    }
  }

  /** The header rule: a block's time is not below the median-time-past of its parent. */
  ghost predicate TimesOk(arena: Arena) {
    forall i :: 0 <= i < |arena| ==> TimeOkAt(arena, i)
  }

  ghost predicate TimeOkAt(arena: Arena, i: nat)
    requires i < |arena|
  {
    arena[i].prev.Some? ==> arena[i].time >= ComputeMtp(arena, arena[i].prev.value)
  }

  lemma MtpStep(arena: Arena, i: nat)
    requires Linked(arena) && TimesOk(arena) && i < |arena| && arena[i].prev.Some?
    ensures ComputeMtp(arena, arena[i].prev.value) <= ComputeMtp(arena, i)
  {
    assert LinkedAt(arena, i) && TimeOkAt(arena, i);
    var parent := Window(arena, arena[i].prev, MEDIAN_TIME_SPAN);
    WindowTake(arena, arena[i].prev, MEDIAN_TIME_SPAN - 1, MEDIAN_TIME_SPAN);
    var keep := if |parent| <= MEDIAN_TIME_SPAN - 1 then |parent| else MEDIAN_TIME_SPAN - 1;
    assert parent[..|parent|] == parent;
    SlidingMedian(arena[i].time, parent, keep);
  }

  /** Median-time-past never falls along a branch. */
  lemma {:induction false} MtpMonotone(arena: Arena, i: nat, n: nat)
    requires Linked(arena) && TimesOk(arena) && i < |arena| && n <= arena[i].height
    ensures Back(arena, i, n).Some?
    ensures ComputeMtp(arena, Back(arena, i, n).value) <= ComputeMtp(arena, i)
    decreases n
  {
    if n > 0 {
      assert LinkedAt(arena, i);
      MtpStep(arena, i);
      MtpMonotone(arena, arena[i].prev.value, n - 1);
    }
  }

  lemma {:induction false} WindowFrame(arena: Arena, more: Arena, idx: Option<nat>, k: nat)
    requires Linked(arena) && (idx.Some? ==> idx.value < |arena|)
    ensures Window(arena + more, idx, k) == Window(arena, idx, k)
    decreases k
  {
    if k > 0 && idx.Some? {
      assert LinkedAt(arena, idx.value);
      WindowFrame(arena, more, arena[idx.value].prev, k - 1);
    }
  }

  // ---------------------------------------------------------------------
  // Growing the arena
  // ---------------------------------------------------------------------

  /** What every operation on the block index keeps. */
  ghost predicate WellFormed(arena: Arena) {
    Linked(arena) && SkipsOk(arena) && TimesOk(arena)
  }

  /** The entry for a header below `prev` (or for a new root), with its skip pointer. */
  ghost function NewBlock(arena: Arena, version: bv32, time: nat, prev: Option<nat>): BlockIndex
    requires prev.Some? ==> prev.value < |arena|
  {
    match prev
    case None => BlockIndex(version, time, 0, None, None)
    case Some(p) =>
      var height := arena[p].height + 1;
      BlockIndex(version, time, height, prev, AncestorAt(arena, p, GetSkipHeight(height)))
  }

  /** Inserting a header whose time respects the median rule, and building its skip pointer. */
  method AppendBlock(arena: Arena, version: bv32, time: nat, prev: Option<nat>) returns (grown: Arena)
    requires WellFormed(arena)
    requires prev.Some? ==> prev.value < |arena| && time >= ComputeMtp(arena, prev.value)
    ensures grown == arena + [NewBlock(arena, version, time, prev)]
    ensures WellFormed(grown)
    ensures grown[|arena|].skip.Some? <==> prev.Some?
  {
    var height := if prev.Some? then arena[prev.value].height + 1 else 0;
    var skip: Option<nat> := None;
    if prev.Some? {
      assert LinkedAt(arena, prev.value);
      skip := GetAncestor(arena, prev.value, GetSkipHeight(height));
      BackInRange(arena, prev.value, arena[prev.value].height - GetSkipHeight(height));
    }
    var block := BlockIndex(version, time, height, prev, skip);
    grown := arena + [block];
    GrownWellFormed(arena, block);
  }

  ghost predicate Extends(arena: Arena, block: BlockIndex) {
    match block.prev
    case None => block.height == 0 && block.skip.None?
    case Some(p) =>
      && p < |arena| && arena[p].height >= 0
      && block.height == arena[p].height + 1
      && block.time >= ComputeMtp(arena, p)
      && (block.skip.Some? ==> block.skip == AncestorAt(arena, p, GetSkipHeight(block.height)))
  }

  lemma GrownLinked(arena: Arena, block: BlockIndex)
    requires Linked(arena) && Extends(arena, block)
    ensures Linked(arena + [block])
  {
    var grown := arena + [block];
    forall i | 0 <= i < |grown| ensures LinkedAt(grown, i) {
      if i < |arena| { assert LinkedAt(arena, i); }
    }
  }

  lemma AncestorFrame(arena: Arena, more: Arena, i: nat, h: int)
    requires Linked(arena) && i < |arena|
    ensures AncestorAt(arena + more, i, h) == AncestorAt(arena, i, h)
  {
    if 0 <= h <= arena[i].height {
      BackFrame(arena, more, i, arena[i].height - h);
    }
  }

  lemma GrownNewSkip(arena: Arena, block: BlockIndex, p: nat, h: int)
    requires Linked(arena) && p < |arena| && block.prev == Some(p)
    requires 0 <= h <= arena[p].height && block.height == arena[p].height + 1
    ensures AncestorAt(arena + [block], |arena|, h) == AncestorAt(arena, p, h)
  {
    AncestorFrame(arena, [block], p, h);
  }

  lemma GrownTime(arena: Arena, block: BlockIndex, i: nat)
    requires Linked(arena) && TimesOk(arena) && Extends(arena, block)
    requires i < |arena + [block]|
    ensures TimeOkAt(arena + [block], i)
  {
    if i < |arena| {
      assert LinkedAt(arena, i) && TimeOkAt(arena, i);
    }
    WindowFrame(arena, [block], (arena + [block])[i].prev, MEDIAN_TIME_SPAN);
  }

  lemma GrownWellFormed(arena: Arena, block: BlockIndex)
    requires WellFormed(arena) && Extends(arena, block)
    ensures WellFormed(arena + [block])
  {
    var grown := arena + [block];
    GrownLinked(arena, block);
    forall i | 0 <= i < |grown| ensures SkipOkAt(grown, i) {
      if i < |arena| {
        assert SkipOkAt(arena, i);
        AncestorFrame(arena, [block], i, GetSkipHeight(arena[i].height));
      } else if block.skip.Some? {
        GrownNewSkip(arena, block, block.prev.value, GetSkipHeight(block.height));
      }
    }
    forall i | 0 <= i < |grown| ensures TimeOkAt(grown, i) {
      GrownTime(arena, block, i);
    }
  }
}
