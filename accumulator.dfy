/**
 * The adaptive statistics of the hybrid entropy coder (CCSDS 123.0-B-2, section
 * 5.4.3.3): the high-resolution accumulator Sigma and the counter Gamma, their update
 * law and its inverse, the high/low-entropy mode test, the searches for the GPO2 code
 * parameter k and the low-entropy code index i, the data-independent trajectory of
 * Gamma, and the clipping of the user parameters.  All arithmetic is on non-negative
 * integers; the source's `int(x / 2)` on such values is floor division.
 */
module Accumulator {
  import opened Bits
  import opened CodingTables

  /** min(max(lo, x), hi). */
  function Clip(x: int, lo: int, hi: int): (r: int)
    ensures lo <= hi ==> lo <= r <= hi
    ensures lo <= x <= hi ==> r == x
    ensures x < lo <= hi ==> r == lo
    ensures x > hi ==> r == hi
    ensures lo > hi ==> r == hi
  {
    var m := if lo > x then lo else x;
    if m < hi then m else hi
  }

  /** The user parameters after clipping: Umax, gamma (the counter size), gamma_0 and Sigma_0. */
  datatype Parameters = Parameters(Umax: int, gamma: int, gamma0: int, Sigma0: int)

  /** Umax to [8, 32], gamma_0 to [1, 8], gamma to [max(4, gamma_0 + 1), 11] with the unclipped gamma_0. */
  function Configure(Umax: int, gamma: int, gamma0: int, Sigma0: int): (p: Parameters)
    ensures 8 <= p.Umax <= 32 && 1 <= p.gamma0 <= 8 && 4 <= p.gamma <= 11
    ensures p.gamma0 < p.gamma
    ensures 8 <= Umax <= 32 ==> p.Umax == Umax
    ensures 1 <= gamma0 <= 8 ==> p.gamma0 == gamma0
    ensures 1 <= gamma0 && gamma0 + 1 <= gamma <= 11 && 4 <= gamma ==> p.gamma == gamma
    ensures p.Sigma0 == Sigma0
  {
    var lower := if 4 > gamma0 + 1 then 4 else gamma0 + 1;
    Parameters(Clip(Umax, 8, 32), Clip(gamma, lower, 11), Clip(gamma0, 1, 8), Sigma0)
  }

  /** Whether the counter has reached 2^gamma - 1, so that the next update rescales. */
  predicate Rescales(Gamma: int, gamma: nat)
  {
    !(Gamma < Pow2(gamma) - 1)
  }

  function UpdatedSigma(Sigma: int, Gamma: int, r: int, gamma: nat): int
  {
    if Rescales(Gamma, gamma) then (Sigma + 4 * r + 1) / 2 else Sigma + 4 * r
  }

  function UpdatedGamma(Gamma: int, gamma: nat): int
  {
    if Rescales(Gamma, gamma) then (Gamma + 1) / 2 else Gamma + 1
  }

  /** bin(Sigma)[-1:] when the update rescales, nothing otherwise: the bit the coder emits. */
  function RescaleBits(Sigma: nat, Gamma: int, gamma: nat): (s: BitString)
    ensures Rescales(Gamma, gamma) ==> s == [BitOf(Sigma % 2)]
    ensures !Rescales(Gamma, gamma) ==> s == []
  {
    var b := Bin(Sigma);
    if Rescales(Gamma, gamma) then b[|b| - 1..] else []
  }

  /** The decoder's step back: Sigma' - 4r, or 2 Sigma' - 4r - b after a rescale that emitted b. */
  function RestoredSigma(SigmaAfter: int, r: int, rescaled: bool, lsb: int): int
  {
    if rescaled then 2 * SigmaAfter - 4 * r - lsb else SigmaAfter - 4 * r
  }

  /** Undoing an update with the emitted bit gives back the accumulator before it. */
  lemma RestoreInvertsUpdate(Sigma: nat, Gamma: int, r: nat, gamma: nat)
    ensures RestoredSigma(UpdatedSigma(Sigma, Gamma, r, gamma), r, Rescales(Gamma, gamma), Sigma % 2) == Sigma
  {
    if Rescales(Gamma, gamma) {
      var h := Sigma / 2;
      var b := Sigma % 2;
      assert Sigma == 2 * h + b;
      var q := h + 2 * r + b;
      DivModUnique(Sigma + 4 * r + 1, 2, q, 1 - b);
      assert UpdatedSigma(Sigma, Gamma, r, gamma) == q;
    }
  }

  /** The coder's running bounds: 0 <= Sigma < Gamma * 2^(D+2) and 1 <= Gamma <= 2^gamma - 1. */
  predicate AccumulatorInvariant(Sigma: int, Gamma: int, D: nat, gamma: nat)
  {
    0 <= Sigma < Gamma * Pow2(D + 2) && 1 <= Gamma <= Pow2(gamma) - 1
  }

  lemma Pow2Step(n: nat)
    ensures Pow2(n + 1) == 2 * Pow2(n)
    ensures Pow2(n + 2) == 4 * Pow2(n)
  {
  }

  /** The clipped initial state Sigma = clip(Sigma_0, 0, 2^(D+gamma_0) - 1), Gamma = 2^gamma_0. */
  lemma InitialAccumulator(Sigma0: int, D: nat, gamma0: nat, gamma: nat)
    requires gamma0 < gamma
    ensures AccumulatorInvariant(Clip(Sigma0, 0, Pow2(D + gamma0) - 1), Pow2(gamma0), D, gamma)
  {
    Pow2Add(gamma0, D + 2);
    Pow2Add(gamma0, D);
    Pow2Step(D);
    Pow2Step(D + gamma0);
    Pow2Monotone(gamma0, gamma - 1);
    Pow2Step(gamma - 1);
  }

  /** One update with a residual below 2^D keeps the accumulator bounds. */
  lemma UpdatePreservesAccumulator(Sigma: int, Gamma: int, r: int, D: nat, gamma: nat)
    requires AccumulatorInvariant(Sigma, Gamma, D, gamma)
    requires 0 <= r < Pow2(D) && gamma >= 1
    ensures AccumulatorInvariant(UpdatedSigma(Sigma, Gamma, r, gamma), UpdatedGamma(Gamma, gamma), D, gamma)
  {
    var P := Pow2(D + 2);
    Pow2Step(D);
    Pow2Step(gamma - 1);
    assert 4 * r <= P - 4;
    DistributeOne(Gamma, P);
    if Rescales(Gamma, gamma) {
      var h := Pow2(gamma - 1);
      assert Gamma + 1 == 2 * h;
      assert (Gamma + 1) * P == 2 * (h * P) by {
        MulAssociates(2, h, P);
      }
      assert Sigma + 4 * r + 1 <= 2 * (h * P) - 4;
      assert (Sigma + 4 * r + 1) / 2 <= h * P - 2;
      assert UpdatedGamma(Gamma, gamma) == h;
    }
  }

  lemma DistributeOne(a: int, b: int)
    ensures (a + 1) * b == a * b + b
  {
  }

  lemma MulAssociates(a: int, b: int, c: int)
    ensures (a * b) * c == a * (b * c)
  {
  }

  /** Sigma fits in the 2 + D + gamma bits the tail reserves for it. */
  lemma AccumulatorFitsTail(Sigma: int, Gamma: int, D: nat, gamma: nat)
    requires AccumulatorInvariant(Sigma, Gamma, D, gamma)
    ensures Sigma < Pow2(2 + D + gamma)
  {
    var P := Pow2(D + 2);
    var G := Pow2(gamma);
    MulMonotone(Gamma, G - 1, P);
    DistributeOne(G - 1, P);
    Pow2Add(D + 2, gamma);
    assert Pow2(2 + D + gamma) == P * G;
  }

  /** The mode test: high entropy when Sigma * 2^14 >= T0 * Gamma. */
  predicate HighEntropy(Sigma: int, Gamma: int, T0: int)
  {
    Sigma * Pow2(14) >= T0 * Gamma
  }

  lemma MulMonotone(a: int, b: int, c: int)
    requires a <= b && c >= 0
    ensures a * c <= b * c
  {
  }

  /** The mode test is monotone non-decreasing in Sigma and non-increasing in Gamma. */
  lemma HighEntropyMonotone(Sigma: int, Sigma': int, Gamma: int, Gamma': int, T0: int)
    requires Sigma <= Sigma' && Gamma' <= Gamma && T0 >= 0
    ensures HighEntropy(Sigma, Gamma, T0) ==> HighEntropy(Sigma', Gamma', T0)
  {
    MulMonotone(Sigma, Sigma', Pow2(14));
    MulMonotone(Gamma', Gamma, T0);
  }

  /** max(D - 2, 2): the largest GPO2 parameter the k search may pick. */
  function KMax(D: int): int
  {
    if D - 2 > 2 then D - 2 else 2
  }

  /** Gamma * 2^(k+2) <= Sigma + floor(49 * Gamma / 32). */
  predicate KFits(Sigma: int, Gamma: int, k: nat)
  {
    Gamma * Pow2(k + 2) <= Sigma + (49 * Gamma) / 32
  }

  /** The ascending scan from k: stops at the first k beyond KMax or failing KFits, and yields k - 1. */
  function KScan(Sigma: int, Gamma: int, D: int, k: nat): nat
    requires k >= 3
    decreases KMax(D) + 1 - k
  {
    if k <= KMax(D) && KFits(Sigma, Gamma, k) then KScan(Sigma, Gamma, D, k + 1) else k - 1
  }

  function SelectK(Sigma: int, Gamma: int, D: int): (k: nat)
    ensures 2 <= k <= KMax(D)
  {
    KScanBounds(Sigma, Gamma, D, 3);
    KScan(Sigma, Gamma, D, 3)
  }

  lemma {:induction false} KScanBounds(Sigma: int, Gamma: int, D: int, k: nat)
    requires 3 <= k <= KMax(D) + 1
    ensures k - 1 <= KScan(Sigma, Gamma, D, k) <= KMax(D)
    decreases KMax(D) + 1 - k
  {
    if k <= KMax(D) && KFits(Sigma, Gamma, k) {
      KScanBounds(Sigma, Gamma, D, k + 1);
    }
  }

  lemma {:induction false} KScanFits(Sigma: int, Gamma: int, D: int, k: nat)
    requires 3 <= k
    ensures forall k' :: k <= k' <= KScan(Sigma, Gamma, D, k) ==> KFits(Sigma, Gamma, k')
    ensures KScan(Sigma, Gamma, D, k) < KMax(D) ==> !KFits(Sigma, Gamma, KScan(Sigma, Gamma, D, k) + 1)
    decreases KMax(D) + 1 - k
  {
    if k <= KMax(D) && KFits(Sigma, Gamma, k) {
      KScanFits(Sigma, Gamma, D, k + 1);
    }
  }

  /** With a non-negative counter, a k that fails the test makes every larger k fail too. */
  lemma {:induction false} KFitsDownward(Sigma: int, Gamma: int, k: nat, k': nat)
    requires Gamma >= 0 && k <= k'
    ensures KFits(Sigma, Gamma, k') ==> KFits(Sigma, Gamma, k)
  {
    Pow2Monotone(k + 2, k' + 2);
    MulMonotone(Pow2(k + 2), Pow2(k' + 2), Gamma);
  }

  /**
   * The selected k passes the test at every k from 3 up to it, fails it at the next
   * candidate, and (for a non-negative counter) is the largest k <= max(D-2, 2) that
   * passes; it is 2 exactly when k = 3 is out of range or fails.
   */
  lemma SelectKIsLargest(Sigma: int, Gamma: int, D: int)
    ensures forall k' :: 3 <= k' <= SelectK(Sigma, Gamma, D) ==> KFits(Sigma, Gamma, k')
    ensures SelectK(Sigma, Gamma, D) < KMax(D) ==> !KFits(Sigma, Gamma, SelectK(Sigma, Gamma, D) + 1)
    ensures Gamma >= 0 ==> forall k' :: SelectK(Sigma, Gamma, D) < k' <= KMax(D) ==> !KFits(Sigma, Gamma, k')
    ensures SelectK(Sigma, Gamma, D) == 2 <==> (KMax(D) < 3 || !KFits(Sigma, Gamma, 3))
  {
    var k := SelectK(Sigma, Gamma, D);
    KScanFits(Sigma, Gamma, D, 3);
    if Gamma >= 0 {
      forall k' | k < k' <= KMax(D)
        ensures !KFits(Sigma, Gamma, k')
      {
        KFitsDownward(Sigma, Gamma, k + 1, k');
      }
    }
  }

  /** The k search loop shared by the coder and the decoder. */
  method SearchK(Sigma: int, Gamma: int, D: int) returns (kGood: nat)
    ensures kGood == SelectK(Sigma, Gamma, D)
  {
    kGood := 2;
    var k: nat := 3;
    while k <= KMax(D)
      invariant k >= 3 && kGood == k - 1
      invariant KScan(Sigma, Gamma, D, k) == SelectK(Sigma, Gamma, D)
      decreases KMax(D) + 1 - k
    {
      if Gamma * Pow2(k + 2) <= Sigma + (49 * Gamma) / 32 {
        kGood := k;
        k := k + 1;
      } else {
        break;
      }
    }
  }

  /** Sigma * 2^14 < Gamma * T(i). */
  predicate IndexFits(Sigma: int, Gamma: int, threshold: int)
  {
    Sigma * Pow2(14) < Gamma * threshold
  }

  /** The ascending scan over code indices from i: yields the index before the first that fails. */
  function IScan(Sigma: int, Gamma: int, limits: seq<LimitAndThreshold>, i: nat): nat
    requires 1 <= i <= 16 && |limits| == 16
    decreases 16 - i
  {
    if i < 16 && IndexFits(Sigma, Gamma, limits[i].threshold) then IScan(Sigma, Gamma, limits, i + 1) else i - 1
  }

  function SelectIndex(Sigma: int, Gamma: int, limits: seq<LimitAndThreshold>): (i: nat)
    requires |limits| == 16
    ensures i < 16
  {
    IScanFits(Sigma, Gamma, limits, 1);
    IScan(Sigma, Gamma, limits, 1)
  }

  lemma {:induction false} IScanFits(Sigma: int, Gamma: int, limits: seq<LimitAndThreshold>, i: nat)
    requires 1 <= i <= 16 && |limits| == 16
    ensures i - 1 <= IScan(Sigma, Gamma, limits, i) < 16
    ensures forall i' :: i <= i' <= IScan(Sigma, Gamma, limits, i) ==> IndexFits(Sigma, Gamma, limits[i'].threshold)
    ensures IScan(Sigma, Gamma, limits, i) < 15 ==> !IndexFits(Sigma, Gamma, limits[IScan(Sigma, Gamma, limits, i) + 1].threshold)
    decreases 16 - i
  {
    if i < 16 && IndexFits(Sigma, Gamma, limits[i].threshold) {
      IScanFits(Sigma, Gamma, limits, i + 1);
    }
  }

  /**
   * The selected code index passes the threshold test at every index from 1 up to it
   * and fails it at the next one; when the thresholds do not increase with i and the
   * counter is non-negative it is the largest index that passes.
   */
  lemma SelectIndexIsLargest(Sigma: int, Gamma: int, limits: seq<LimitAndThreshold>)
    requires |limits| == 16
    ensures forall i' :: 1 <= i' <= SelectIndex(Sigma, Gamma, limits) ==> IndexFits(Sigma, Gamma, limits[i'].threshold)
    ensures SelectIndex(Sigma, Gamma, limits) < 15 ==> !IndexFits(Sigma, Gamma, limits[SelectIndex(Sigma, Gamma, limits) + 1].threshold)
    ensures Gamma >= 0 && (forall j :: 1 <= j < 15 ==> limits[j + 1].threshold <= limits[j].threshold) ==>
      forall i' :: SelectIndex(Sigma, Gamma, limits) < i' < 16 ==> !IndexFits(Sigma, Gamma, limits[i'].threshold)
  {
    var i := SelectIndex(Sigma, Gamma, limits);
    IScanFits(Sigma, Gamma, limits, 1);
    if Gamma >= 0 && (forall j :: 1 <= j < 15 ==> limits[j + 1].threshold <= limits[j].threshold) && i < 15 {
      forall i' | i < i' < 16
        ensures !IndexFits(Sigma, Gamma, limits[i'].threshold)
      {
        ThresholdsDownward(limits, i + 1, i');
        MulMonotone(limits[i'].threshold, limits[i + 1].threshold, Gamma);
      }
    }
  }

  lemma {:induction false} ThresholdsDownward(limits: seq<LimitAndThreshold>, a: nat, b: nat)
    requires |limits| == 16 && 1 <= a <= b < 16
    requires forall j :: 1 <= j < 15 ==> limits[j + 1].threshold <= limits[j].threshold
    ensures limits[b].threshold <= limits[a].threshold
    decreases b - a
  {
    if a < b {
      ThresholdsDownward(limits, a, b - 1);
    }
  }

  /** The code index search loop shared by the coder and the decoder. */
  method SearchCodeIndex(Sigma: int, Gamma: int, limits: seq<LimitAndThreshold>) returns (iGood: nat)
    requires |limits| == 16
    ensures iGood == SelectIndex(Sigma, Gamma, limits)
  {
    iGood := 0;
    var i: nat := 1;
    while i < 16
      invariant 1 <= i <= 16 && iGood == i - 1
      invariant IScan(Sigma, Gamma, limits, i) == SelectIndex(Sigma, Gamma, limits)
    {
      var threshold := limits[i].threshold;
      if Sigma * Pow2(14) < Gamma * threshold {
        iGood := i;
        i := i + 1;
      } else {
        break;
      }
    }
  }

  /** Gamma(t): 2^gamma_0 at t = 0, then one counter update per sample. */
  function GammaAt(gamma0: nat, gamma: nat, t: nat): int
  {
    if t == 0 then Pow2(gamma0) else UpdatedGamma(GammaAt(gamma0, gamma, t - 1), gamma)
  }

  /** Whether the update that produced Gamma(t) rescaled. */
  predicate RescaledAt(gamma0: nat, gamma: nat, t: nat)
  {
    t > 0 && Rescales(GammaAt(gamma0, gamma, t - 1), gamma)
  }

  /** With gamma_0 < gamma the counter never leaves [1, 2^gamma - 1]. */
  lemma {:induction false} GammaAtBounds(gamma0: nat, gamma: nat, t: nat)
    requires gamma0 < gamma
    ensures 1 <= GammaAt(gamma0, gamma, t) <= Pow2(gamma) - 1
  {
    Pow2Step(gamma - 1);
    if t == 0 {
      Pow2Monotone(gamma0, gamma - 1);
    } else {
      GammaAtBounds(gamma0, gamma, t - 1);
    }
  }
}
