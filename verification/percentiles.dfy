/**
 * The two percentile helpers of bench/ on sorted samples: nearest-rank (bench_transcription.py) and
 * floor-index (bench_ipc.py).  Sample values and percentages are exact reals.
 */
module Percentiles {
  import opened Rounding

  ghost predicate Sorted(s: seq<real>) {
    forall i, j | 0 <= i < j < |s| :: s[i] <= s[j]
  }

  function Clamp(index: int, n: nat): (r: nat)
    requires n > 0
    ensures r < n
  {
    if index < 0 then 0 else if index > n - 1 then n - 1 else index
  }

  function NearestIndex(n: nat, pct: real): nat
    requires n > 0
  {
    var rank := Ceil(n as real * pct / 100.0);
    Clamp(if rank - 1 > 0 then rank - 1 else 0, n)
  }

  /** `_percentile` of bench_transcription.py. */
  function NearestRank(s: seq<real>, pct: real): real {
    if s == [] then 0.0 else s[NearestIndex(|s|, pct)]
  }

  function FloorIndex(n: nat, pct: real): nat
    requires n > 0 && pct >= 0.0
  {
    Clamp((n as real * pct / 100.0).Floor, n)
  }

  /** `_percentile` of bench_ipc.py, for percentages from 0 on. */
  function FloorRank(s: seq<real>, pct: real): real
    requires pct >= 0.0
  {
    if s == [] then 0.0 else s[FloorIndex(|s|, pct)]
  }

  /** How many samples are below `v`, and how many at or below it. */
  function Below(s: seq<real>, v: real): (n: nat)
    ensures n <= |s|
  {
    if s == [] then 0 else Below(s[..|s| - 1], v) + (if s[|s| - 1] < v then 1 else 0)
  }

  function UpTo(s: seq<real>, v: real): (n: nat)
    ensures n <= |s|
  {
    if s == [] then 0 else UpTo(s[..|s| - 1], v) + (if s[|s| - 1] <= v then 1 else 0)
  }

  /** In sorted samples, position and counts bound each other. */
  lemma {:induction false} CountsAt(s: seq<real>, k: nat)
    requires Sorted(s) && k < |s|
    ensures Below(s, s[k]) <= k < UpTo(s, s[k])
  {
    var v := s[k];
    var front := s[..|s| - 1];
    if k < |s| - 1 {
      assert front[k] == v;
      CountsAt(front, k);
    } else {
      AllUpTo(front, v);
    }
  }

  lemma {:induction false} AllUpTo(s: seq<real>, v: real)
    requires forall i | 0 <= i < |s| :: s[i] <= v
    ensures UpTo(s, v) == |s|
  {
    if s != [] {
      AllUpTo(s[..|s| - 1], v);
    }
  }

  /** The samples at or below a smaller value are below a larger one. */
  lemma {:induction false} UpToWithinBelow(s: seq<real>, v: real, w: real)
    requires v < w
    ensures UpTo(s, v) <= Below(s, w)
  {
    if s != [] {
      UpToWithinBelow(s[..|s| - 1], v, w);
    }
  }

  /** `v` splits the samples at `pct`: at least that share is at or below it, less is below it. */
  ghost predicate Splits(s: seq<real>, pct: real, v: real) {
    100.0 * UpTo(s, v) as real >= pct * |s| as real && 100.0 * Below(s, v) as real < pct * |s| as real
  }

  /** The nearest-rank percentile is the one sample value that splits the samples at `pct`; for 0 it is
      the smallest sample. */
  lemma NearestRankSplits(s: seq<real>, pct: real, v: real)
    requires Sorted(s) && s != [] && 0.0 <= pct <= 100.0
    ensures NearestRank(s, pct) in s
    ensures pct > 0.0 && v in s ==> (v == NearestRank(s, pct) <==> Splits(s, pct, v))
    ensures pct == 0.0 && v in s ==> NearestRank(s, pct) <= v
  {
    var n := |s|;
    var share := n as real * pct / 100.0;
    var k := NearestIndex(n, pct);
    if pct == 0.0 {
      assert share == 0.0 && k == 0;
    } else {
      ShareBounds(n, pct);
      assert k as real < share <= k as real + 1.0;
      CountsAt(s, k);
      assert UpTo(s, s[k]) as real >= k as real + 1.0 && Below(s, s[k]) as real <= k as real;
      assert Splits(s, pct, s[k]);
      if v in s && Splits(s, pct, v) {
        if v < s[k] { UpToWithinBelow(s, v, s[k]); }
        if s[k] < v { UpToWithinBelow(s, s[k], v); }
      }
    }
  }

  lemma ShareBounds(n: nat, pct: real)
    requires n > 0 && 0.0 < pct <= 100.0
    ensures var share := n as real * pct / 100.0;
            && 0.0 < share <= n as real
            && NearestIndex(n, pct) as real < share <= NearestIndex(n, pct) as real + 1.0
  {
    var share := n as real * pct / 100.0;
    assert n as real * pct <= n as real * 100.0;
    assert n as real * pct > 0.0;
    var rank := Ceil(share);
    assert rank as real - 1.0 < share <= rank as real;
    assert rank as real < n as real + 1.0;
    assert 1 <= rank <= n;
  }

  /** The floor-index variant is never a lower rank, and exactly one rank higher precisely when the
      share is a whole number of samples and the percentage is below 100. */
  lemma FloorIndexVersusNearest(n: nat, pct: real)
    requires n > 0 && 0.0 < pct <= 100.0
    ensures var share := n as real * pct / 100.0;
            FloorIndex(n, pct) - NearestIndex(n, pct)
            == if share == share.Floor as real && pct < 100.0 then 1 else 0
  {
    var share := n as real * pct / 100.0;
    ShareBounds(n, pct);
    if pct < 100.0 {
      assert n as real * pct < n as real * 100.0;
      FloorOfShare(n, share, NearestIndex(n, pct));
    } else {
      assert share == n as real;
    }
  }

  /** Rounding down instead of up: the same index unless the share is whole. */
  lemma FloorOfShare(n: nat, share: real, nearest: nat)
    requires nearest as real < share <= nearest as real + 1.0 && 0.0 < share < n as real
    ensures 0 <= share.Floor <= n - 1
    ensures share.Floor - nearest == if share == share.Floor as real then 1 else 0
  {
  }

  /** `v` splits the samples above `pct`: more than that share is at or below it, at most it is below. */
  ghost predicate SplitsAbove(s: seq<real>, pct: real, v: real) {
    var share := |s| as real * pct / 100.0;
    UpTo(s, v) as real > share && Below(s, v) as real <= share
  }

  lemma FloorPosition(n: nat, pct: real)
    requires n > 0 && pct >= 0.0
    ensures pct < 100.0 ==> var share := n as real * pct / 100.0;
                            FloorIndex(n, pct) as real <= share < FloorIndex(n, pct) as real + 1.0
    ensures pct >= 100.0 ==> FloorIndex(n, pct) == n - 1
  {
    Scaled(n as real, 0.0, pct);
    if pct < 100.0 { Scaled(n as real, pct, 100.0); } else { Scaled(n as real, 100.0, pct); }
  }

  lemma Scaled(a: real, b: real, c: real)
    requires a > 0.0
    ensures b < c ==> a * b < a * c
    ensures b <= c ==> a * b <= a * c
  {
    if b < c {
      assert c - b > 0.0;
      assert a * (c - b) > 0.0;
    }
  }

  lemma SplitsAtFloor(s: seq<real>, pct: real, k: nat)
    requires Sorted(s) && k < |s| && k as real <= |s| as real * pct / 100.0 < k as real + 1.0
    ensures SplitsAbove(s, pct, s[k])
  {
    hide Sorted, UpTo, Below;
    CountsAt(s, k);
  }

  lemma SplitsOnce(s: seq<real>, pct: real, v: real, w: real)
    requires v < w
    ensures !(SplitsAbove(s, pct, v) && SplitsAbove(s, pct, w))
  {
    hide UpTo, Below;
    UpToWithinBelow(s, v, w);
  }

  /** The floor-index percentile is the one sample value that splits the samples above `pct`; from 100 on
      it is the largest sample. */
  lemma FloorRankSplits(s: seq<real>, pct: real, v: real)
    requires Sorted(s) && s != [] && pct >= 0.0
    ensures FloorRank(s, pct) in s
    ensures pct < 100.0 && v in s ==> (v == FloorRank(s, pct) <==> SplitsAbove(s, pct, v))
    ensures pct >= 100.0 ==> FloorRank(s, pct) == s[|s| - 1]
  {
    hide SplitsAbove, FloorIndex, Sorted;
    FloorPosition(|s|, pct);
    if pct < 100.0 {
      var k := FloorIndex(|s|, pct);
      SplitsAtFloor(s, pct, k);
      if v < s[k] { SplitsOnce(s, pct, v, s[k]); }
      if s[k] < v { SplitsOnce(s, pct, s[k], v); }
    }
  }
}
