/** Little-endian numbers in base 2^32, and the integers they stand for. */
module Limbs {
  import opened Arith

  const BASE: int := 0x1_0000_0000

  type u32 = x: int | 0 <= x < 0x1_0000_0000
  type u64 = x: int | 0 <= x < 0x1_0000_0000_0000_0000

  /** 2^(32 k). */
  ghost function Weight(k: nat): (w: int)
    ensures w >= 1
  {
    if k == 0 then 1 else BASE * Weight(k - 1)
  }

  ghost function Val(s: seq<int>): int {
    if s == [] then 0 else Val(s[..|s| - 1]) + s[|s| - 1] * Weight(|s| - 1)
  }

  /** Every digit is a 32-bit digit. */
  ghost predicate Digits(s: seq<int>) {
    forall i :: 0 <= i < |s| ==> 0 <= s[i] < BASE
  }

  lemma {:induction false} WeightSum(i: nat, j: nat)
    ensures Weight(i + j) == Weight(i) * Weight(j)
    decreases i
  {
    if i > 0 {
      WeightSum(i - 1, j);
      assert Weight(i) == BASE * Weight(i - 1);
      calc {
        Weight(i + j);
        BASE * Weight(i - 1 + j);
        BASE * (Weight(i - 1) * Weight(j));
        (BASE * Weight(i - 1)) * Weight(j);
      }
    }
  }

  lemma {:induction false} WeightMonotone(i: nat, j: nat)
    requires i <= j
    ensures Weight(i) <= Weight(j)
    decreases j
  {
    if i < j {
      WeightMonotone(i, j - 1);
    }
  }

  lemma ValStep(s: seq<int>, i: nat)
    requires i < |s|
    ensures Val(s[..i + 1]) == Val(s[..i]) + s[i] * Weight(i)
  {
    assert s[..i + 1][..i] == s[..i];
  }

  lemma {:induction false} ValUpdate(s: seq<int>, i: nat, x: int)
    requires i < |s|
    ensures Val(s[i := x]) == Val(s) + (x - s[i]) * Weight(i)
    decreases |s|
  {
    var n := |s| - 1;
    if i == n {
      assert s[i := x][..n] == s[..n];
      Distribute(x, s[i], Weight(i));
    } else {
      assert s[i := x][..n] == s[..n][i := x];
      ValUpdate(s[..n], i, x);
    }
  }

  lemma Distribute(x: int, y: int, w: int)
    ensures (x - y) * w == x * w - y * w
  {
  }

  lemma {:induction false} ValSplit(s: seq<int>, i: nat)
    requires i <= |s|
    ensures Val(s) == Val(s[..i]) + Val(s[i..]) * Weight(i)
    decreases |s| - i
  {
    if i == |s| {
      assert s[..i] == s && s[i..] == [];
    } else {
      var n := |s| - 1;
      ValSplit(s[..n], i);
      assert s[..n][..i] == s[..i] && s[..n][i..] == s[i..n];
      var hi := s[i..];
      assert hi[..|hi| - 1] == s[i..n];
      WeightSum(|hi| - 1, i);
      ShiftedDigit(Val(s[i..n]), s[n], Weight(|hi| - 1), Weight(i));
    }
  }

  lemma ShiftedDigit(v: int, d: int, u: int, w: int)
    ensures (v + d * u) * w == v * w + d * (u * w)
  {
  }

  lemma {:induction false} ValBound(s: seq<int>)
    requires Digits(s)
    ensures 0 <= Val(s) < Weight(|s|)
  {
    if s != [] {
      var n := |s| - 1;
      ValBound(s[..n]);
      DigitBound(s[n], Weight(n));
    }
  }

  lemma DigitBound(d: int, w: int)
    requires 0 <= d < BASE && w >= 1
    ensures 0 <= d * w && d * w + w <= BASE * w
  {
    MulNonneg(d, w);
    MulNonneg(BASE - 1 - d, w);
    assert (BASE - 1 - d) * w == (BASE - 1) * w - d * w;
  }

  lemma {:induction false} ValZeros(s: seq<int>)
    requires forall i :: 0 <= i < |s| ==> s[i] == 0
    ensures Val(s) == 0
  {
    if s != [] {
      ValZeros(s[..|s| - 1]);
    }
  }

  /** One carry step: replacing a digit `d` by the low half of `t` and carrying the rest. */
  lemma CarryStep(v: int, d: int, t: int, w: int)
    requires t >= 0
    ensures v + (t % BASE - d) * w + (t / BASE) * (BASE * w) == v + (t - d) * w
  {
    var lo, hi := t % BASE, t / BASE;
    assert t == lo + hi * BASE;
    calc {
      (lo - d) * w + hi * (BASE * w);
      lo * w - d * w + (hi * BASE) * w;
      (lo + hi * BASE - d) * w;
    }
  }

  lemma {:induction false} ValInjective(s: seq<int>, t: seq<int>)
    requires |s| == |t| && Digits(s) && Digits(t) && Val(s) == Val(t)
    ensures s == t
  {
    if s != [] {
      var n := |s| - 1;
      ValBound(s[..n]);
      ValBound(t[..n]);
      assert (s[n] - t[n]) * Weight(n) == Val(t[..n]) - Val(s[..n]);
      SmallMultiple(s[n] - t[n], Weight(n));
      ValInjective(s[..n], t[..n]);
      assert s == s[..n] + [s[n]] && t == t[..n] + [t[n]];
    }
  }

  lemma SmallMultiple(d: int, w: int)
    requires w >= 1 && -w < d * w < w
    ensures d == 0
  {
    ProductBound(d, w);
  }
}
