/**
 * MedianAvgFilter<unsigned int, N>: a ring of N samples that are averaged
 * after dropping the lowest and the highest one. Samples and the running
 * sum are 32-bit unsigned values, so the sum wraps modulo 2^32.
 */
module Median {
  import opened Arith
  import opened Bytes

  const WRAP: int := 0x1_0000_0000

  /** The ring position after k calls of add starting from 0. */
  function CounterAfter(n: nat, k: nat): (c: nat)
    requires n > 0
    ensures c < n
  {
    if k == 0 then 0 else (CounterAfter(n, k - 1) + 1) % n
  }

  /** add returns 0 exactly on every n-th call. */
  lemma {:induction false} CounterIsCallsModN(n: nat, k: nat)
    requires n > 0
    ensures CounterAfter(n, k) == k % n
    ensures CounterAfter(n, k) == 0 <==> k % n == 0
  {
    if k > 0 {
      CounterIsCallsModN(n, k - 1);
      var q, c := (k - 1) / n, (k - 1) % n;
      assert k == q * n + (c + 1);
      if c + 1 < n {
        DivModUnique(k, n, q, c + 1);
        DivModUnique(c + 1, n, 0, c + 1);
      } else {
        assert k == (q + 1) * n + 0;
        DivModUnique(k, n, q + 1, 0);
        DivModUnique(c + 1, n, 1, 0);
      }
    }
  }

  /** The index the first loop of calc leaves in minIdx after looking at s[..k]. */
  function MinIdx(s: seq<U32>, k: nat): (m: nat)
    requires 0 < |s| && k <= |s|
    ensures m < |s| && (k > 0 ==> m < k)
  {
    if k == 0 then 0
    else
      var m := MinIdx(s, k - 1);
      if s[k - 1] < s[m] then k - 1 else m
  }

  /** The index the first loop of calc leaves in maxIdx after looking at s[..k]. */
  function MaxIdx(s: seq<U32>, k: nat): (m: nat)
    requires 0 < |s| && k <= |s|
    ensures m < |s| && (k > 0 ==> m < k)
  {
    if k == 0 then 0
    else
      var m := MaxIdx(s, k - 1);
      if s[k - 1] > s[m] then k - 1 else m
  }

  /** The strict comparisons keep the first index of the minimum. */
  lemma {:induction false} MinIdxIsFirstMinimum(s: seq<U32>, k: nat)
    requires 0 < k <= |s|
    ensures forall j :: 0 <= j < k ==> s[MinIdx(s, k)] <= s[j]
    ensures forall j :: 0 <= j < MinIdx(s, k) ==> s[MinIdx(s, k)] < s[j]
  {
    if k > 1 {
      MinIdxIsFirstMinimum(s, k - 1);
    }
  }

  /** The strict comparisons keep the first index of the maximum. */
  lemma {:induction false} MaxIdxIsFirstMaximum(s: seq<U32>, k: nat)
    requires 0 < k <= |s|
    ensures forall j :: 0 <= j < k ==> s[MaxIdx(s, k)] >= s[j]
    ensures forall j :: 0 <= j < MaxIdx(s, k) ==> s[MaxIdx(s, k)] > s[j]
  {
    if k > 1 {
      MaxIdxIsFirstMaximum(s, k - 1);
    }
  }

  predicate Constant(s: seq<U32>)
  {
    forall j :: 0 <= j < |s| ==> s[j] == s[0]
  }

  /** minIdx and maxIdx coincide exactly when all samples are equal, and then both are 0. */
  lemma IndicesMeetIffConstant(s: seq<U32>)
    requires 0 < |s|
    ensures MinIdx(s, |s|) == MaxIdx(s, |s|) <==> Constant(s)
    ensures Constant(s) ==> MinIdx(s, |s|) == 0 && MaxIdx(s, |s|) == 0
  {
    MinIdxIsFirstMinimum(s, |s|);
    MaxIdxIsFirstMaximum(s, |s|);
    var lo, hi := MinIdx(s, |s|), MaxIdx(s, |s|);
    if lo == hi {
      assert forall j :: 0 <= j < |s| ==> s[j] == s[lo];
    }
    if Constant(s) {
      assert !(s[lo] < s[0]) && !(s[hi] > s[0]);
    }
  }

  /** The sum of s[..k], without wrapping. */
  function Sum(s: seq<U32>, k: nat): nat
    requires k <= |s|
  {
    if k == 0 then 0 else Sum(s, k - 1) + s[k - 1]
  }

  /** The sum of s[..k] leaving out indices a and b, without wrapping. */
  function TrimmedSum(s: seq<U32>, a: nat, b: nat, k: nat): nat
    requires k <= |s|
  {
    if k == 0 then 0
    else TrimmedSum(s, a, b, k - 1) + (if k - 1 != a && k - 1 != b then s[k - 1] else 0)
  }

  /** The second loop of calc: the same sum accumulated in an unsigned int. */
  function WrappedTrimmedSum(s: seq<U32>, a: nat, b: nat, k: nat): U32
    requires k <= |s|
  {
    if k == 0 then 0
    else
      var r := WrappedTrimmedSum(s, a, b, k - 1);
      if k - 1 != a && k - 1 != b then ToU32(r + s[k - 1]) else r
  }

  /** calc's result on the samples s, as the code computes it. */
  function CalcOf(s: seq<U32>): U32
    requires |s| >= 3
  {
    WrappedTrimmedSum(s, MinIdx(s, |s|), MaxIdx(s, |s|), |s|) / (|s| - 2)
  }

  lemma {:induction false} WrappedIsMod(s: seq<U32>, a: nat, b: nat, k: nat)
    requires k <= |s|
    ensures WrappedTrimmedSum(s, a, b, k) == TrimmedSum(s, a, b, k) % WRAP
  {
    if k > 0 {
      WrappedIsMod(s, a, b, k - 1);
      var t := TrimmedSum(s, a, b, k - 1);
      var x := if k - 1 != a && k - 1 != b then s[k - 1] else 0;
      assert t == (t / WRAP) * WRAP + t % WRAP;
      DivAddMultiple(t % WRAP + x, t / WRAP, WRAP);
    }
  }

  /** Leaving out two indices below k takes exactly those two samples off the sum. */
  lemma {:induction false} TrimmedSumSplit(s: seq<U32>, a: nat, b: nat, k: nat)
    requires k <= |s|
    ensures TrimmedSum(s, a, b, k)
            == Sum(s, k) - (if a < k then s[a] else 0) - (if b < k && b != a then s[b] else 0)
  {
    if k > 0 {
      TrimmedSumSplit(s, a, b, k - 1);
    }
  }

  /** With all samples equal, leaving out index 0 alone sums k - 1 copies of the sample. */
  lemma {:induction false} TrimmedSumConstant(s: seq<U32>, k: nat)
    requires 0 < k <= |s| && Constant(s)
    ensures TrimmedSum(s, 0, 0, k) == s[0] * (k - 1)
  {
    if k > 1 {
      TrimmedSumConstant(s, k - 1);
      MulDistrib(k - 2, 1, s[0]);
    }
  }

  /** With a distinct minimum and maximum, calc is (sum - min - max) / (N - 2), summed modulo 2^32. */
  lemma CalcDistinct(s: seq<U32>)
    requires |s| >= 3 && MinIdx(s, |s|) != MaxIdx(s, |s|)
    ensures CalcOf(s) == ((Sum(s, |s|) - s[MinIdx(s, |s|)] - s[MaxIdx(s, |s|)]) % WRAP) / (|s| - 2)
  {
    WrappedIsMod(s, MinIdx(s, |s|), MaxIdx(s, |s|), |s|);
    TrimmedSumSplit(s, MinIdx(s, |s|), MaxIdx(s, |s|), |s|);
  }

  /**
   * With all N samples equal to v, only index 0 is left out: N - 1 samples
   * are summed and divided by N - 2, which overshoots v by v / (N - 2).
   */
  lemma CalcConstant(s: seq<U32>)
    requires |s| >= 3 && Constant(s) && s[0] * (|s| - 1) < WRAP
    ensures CalcOf(s) == s[0] + s[0] / (|s| - 2)
  {
    var v, d := s[0], |s| - 2;
    IndicesMeetIffConstant(s);
    assert CalcOf(s) == WrappedTrimmedSum(s, 0, 0, |s|) / d;
    WrappedIsMod(s, 0, 0, |s|);
    TrimmedSumConstant(s, |s|);
    var t := TrimmedSum(s, 0, 0, |s|);
    assert t == s[0] * (|s| - 1) < WRAP;
    DivModUnique(t, WRAP, 0, t);
    assert WrappedTrimmedSum(s, 0, 0, |s|) == t;
    Overshoot(v, d, |s| - 1, t);
  }

  lemma Overshoot(v: nat, d: nat, m: nat, t: int)
    requires d > 0 && m == d + 1 && t == v * m
    ensures t / d == v + v / d
  {
    assert t == v + v * d;
    DivAddMultiple(v, v, d);
  }

  /** Five equal samples of 100 average to 133. */
  lemma CalcAllEqualExample()
    ensures CalcOf([100, 100, 100, 100, 100]) == 133
  {
    var s: seq<U32> := [100, 100, 100, 100, 100];
    assert Constant(s);
    CalcConstant(s);
  }

  /** The documented filter: drop one lowest and one highest sample and average the other N - 2. */
  function TrimmedMean(s: seq<U32>): U32
    requires |s| >= 3
  {
    ToU32(Sum(s, |s|) - s[MinIdx(s, |s|)] - s[MaxIdx(s, |s|)]) / (|s| - 2)
  }

  /** The code computes the documented mean whenever minimum and maximum sit at different indices. */
  lemma TrimmedMeanAgrees(s: seq<U32>)
    requires |s| >= 3 && MinIdx(s, |s|) != MaxIdx(s, |s|)
    ensures CalcOf(s) == TrimmedMean(s)
  {
    CalcDistinct(s);
  }

  /**
   * Leaving out the first minimum and any other index holding the maximum
   * gives the documented total: when all samples are equal that other index
   * stands in for the maximum that coincides with the minimum.
   */
  lemma TrimmedAtOtherMax(s: seq<U32>, b: nat)
    requires |s| >= 3 && b < |s| && b != MinIdx(s, |s|) && s[b] == s[MaxIdx(s, |s|)]
    ensures WrappedTrimmedSum(s, MinIdx(s, |s|), b, |s|)
            == ToU32(Sum(s, |s|) - s[MinIdx(s, |s|)] - s[MaxIdx(s, |s|)])
  {
    var n, mi := |s|, MinIdx(s, |s|);
    WrappedIsMod(s, mi, b, n);
    TrimmedSumSplit(s, mi, b, n);
  }

  /** A sum over k indices with two left out has k - #left-out terms, each between lo and hi. */
  lemma {:induction false} TrimmedSumBounds(s: seq<U32>, a: nat, b: nat, k: nat, lo: int, hi: int)
    requires k <= |s| && a != b
    requires forall j :: 0 <= j < |s| ==> lo <= s[j] <= hi
    ensures var c := k - (if a < k then 1 else 0) - (if b < k then 1 else 0);
            c * lo <= TrimmedSum(s, a, b, k) <= c * hi
  {
    if k > 0 {
      TrimmedSumBounds(s, a, b, k - 1, lo, hi);
      var c := k - 1 - (if a < k - 1 then 1 else 0) - (if b < k - 1 then 1 else 0);
      MulDistrib(c, 1, lo);
      MulDistrib(c, 1, hi);
    }
  }

  /** Without wrap-around the documented mean lies between the lowest and the highest sample. */
  lemma TrimmedMeanBounds(s: seq<U32>)
    requires |s| >= 3 && Sum(s, |s|) < WRAP
    ensures s[MinIdx(s, |s|)] <= TrimmedMean(s) <= s[MaxIdx(s, |s|)]
    ensures Constant(s) ==> TrimmedMean(s) == s[0]
  {
    var n := |s|;
    var lo, hi := s[MinIdx(s, n)], s[MaxIdx(s, n)];
    var t := Sum(s, n) - lo - hi;
    InnerSumBounds(s);
    MulMono(0, n - 2, lo);
    assert 0 <= t < WRAP;
    DivModUnique(t, WRAP, 0, t);
    assert TrimmedMean(s) == t / (n - 2);
    DivBetween(t, n - 2, lo, hi);
    if Constant(s) {
      IndicesMeetIffConstant(s);
      assert lo == s[0] && hi == s[0];
    }
  }

  /** Sum minus lowest and highest sample is a sum of N - 2 samples, each between the two. */
  lemma InnerSumBounds(s: seq<U32>)
    requires |s| >= 3
    ensures var lo, hi := s[MinIdx(s, |s|)], s[MaxIdx(s, |s|)];
            (|s| - 2) * lo <= Sum(s, |s|) - lo - hi <= (|s| - 2) * hi
  {
    var n := |s|;
    var mi, ma := MinIdx(s, n), MaxIdx(s, n);
    var lo, hi := s[mi], s[ma];
    MinIdxIsFirstMinimum(s, n);
    MaxIdxIsFirstMaximum(s, n);
    IndicesMeetIffConstant(s);
    var b := if ma != mi then ma else if mi == 0 then 1 else 0;
    assert s[b] == hi;
    TrimmedSumSplit(s, mi, b, n);
    TrimmedSumBounds(s, mi, b, n, lo, hi);
  }

  // ---------------------------------------------------------------------
  // The object

  class MedianAvgFilter {
    const data: array<U32>
    var counter: nat
    /** Number of add calls since construction or the last clear. */
    ghost var added: nat

    ghost predicate Valid()
      reads this
    {
      data.Length >= 3 && counter == CounterAfter(data.Length, added)
    }

    /** A filter in static storage: all samples and the counter start at 0. */
    constructor(n: nat)
      requires n >= 3
      ensures Valid() && fresh(data) && data.Length == n && added == 0
      ensures data[..] == seq(n, _ => 0)
    {
      data := new U32[n](_ => 0);
      counter := 0;
      added := 0;
    }

    /** add: stores the sample at the counter and returns the advanced counter. */
    method Add(item: U32) returns (r: nat)
      requires Valid()
      modifies this, data
      ensures Valid() && added == old(added) + 1
      ensures data[..] == old(data[..])[old(counter) := item]
      ensures r == counter == (old(counter) + 1) % data.Length
      ensures r == 0 <==> added % data.Length == 0
    {
      data[counter] := item;
      counter := (counter + 1) % data.Length;
      added := added + 1;
      CounterIsCallsModN(data.Length, added);
      r := counter;
    }

    /** clear: counter and samples back to 0. */
    method Clear()
      requires Valid()
      modifies this, data
      ensures Valid() && counter == 0 && added == 0
      ensures data[..] == seq(data.Length, _ => 0)
    {
      for i := 0 to data.Length
        invariant forall j :: 0 <= j < i ==> data[j] == 0
      {
        data[i] := 0;
      }
      counter := 0;
      added := 0;
    }

    /** calc (and the conversion to T): reads the samples, changes nothing. */
    method Calc() returns (r: U32)
      requires Valid()
      ensures r == CalcOf(data[..])
    {
      var minIdx, maxIdx := Extremes();
      var retVal := TrimmedTotal(minIdx, maxIdx);
      r := retVal / (data.Length - 2);
    }

    /**
     * calc with the all-equal case corrected: when the first minimum and the
     * first maximum are one sample, the next sample is left out as the
     * maximum, so exactly N - 2 samples are averaged.
     */
    method CalcTrimmed() returns (r: U32)
      requires Valid()
      ensures r == TrimmedMean(data[..])
    {
      ghost var s := data[..];
      var minIdx, maxIdx := Extremes();
      IndicesMeetIffConstant(s);
      if minIdx == maxIdx {
        DivModUnique(minIdx + 1, data.Length, 0, 1);
        maxIdx := (minIdx + 1) % data.Length;
        assert s[maxIdx] == s[0] == s[MaxIdx(s, |s|)];
      }
      var retVal := TrimmedTotal(minIdx, maxIdx);
      TrimmedAtOtherMax(s, maxIdx);
      DivBelow(retVal, data.Length - 2, WRAP);
      r := retVal / (data.Length - 2);
    }

    /** The first loop of calc: first indices of the smallest and the largest sample. */
    method Extremes() returns (minIdx: nat, maxIdx: nat)
      requires Valid()
      ensures minIdx == MinIdx(data[..], data.Length) && maxIdx == MaxIdx(data[..], data.Length)
    {
      ghost var s := data[..];
      minIdx, maxIdx := 0, 0;
      for i := 0 to data.Length
        invariant minIdx < data.Length && maxIdx < data.Length
        invariant minIdx == MinIdx(s, i) && maxIdx == MaxIdx(s, i)
      {
        var val := data[i];
        assert val == s[i] && data[minIdx] == s[minIdx] && data[maxIdx] == s[maxIdx];
        if val < data[minIdx] {
          minIdx := i;
        }
        if val > data[maxIdx] {
          maxIdx := i;
        }
      }
    }

    /** The second loop of calc: the unsigned sum of every sample but those at minIdx and maxIdx. */
    method TrimmedTotal(minIdx: nat, maxIdx: nat) returns (retVal: U32)
      requires Valid()
      ensures retVal == WrappedTrimmedSum(data[..], minIdx, maxIdx, data.Length)
    {
      ghost var s := data[..];
      retVal := 0;
      for i := 0 to data.Length
        invariant retVal == WrappedTrimmedSum(s, minIdx, maxIdx, i)
      {
        if i != minIdx && i != maxIdx {
          retVal := ToU32(retVal + data[i]);
        }
      }
    }
  }
}
