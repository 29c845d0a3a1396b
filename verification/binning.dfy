/** Phase binning and phase-locked averaging (dsp/slow-waves.cpp:784-856):
    `getbin` with its last-bin shortcut, the bin thresholds `360/nbins`
    apart, and the per-bin sums and counts over every wave's samples. */
module PhaseBins {
  import opened Wrappers
  import opened WaveTypes

  predicate Sorted(th: seq<real>) {
    forall i, j :: 0 <= i <= j < |th| ==> th[i] <= th[j]
  }

  /** `for (b = from; b < nb; b++) if (x < th[b]) return b;` followed by the
      fall-back `return nb - 1`. */
  function ScanBins(x: real, th: seq<real>, from: nat, nb: nat): (b: nat)
    requires 1 <= nb <= |th|
    ensures b < nb
    ensures b == nb - 1 || x < th[b]
    decreases nb - from
  {
    if from >= nb then nb - 1
    else if x < th[from] then from
    else ScanBins(x, th, from + 1, nb)
  }

  /** `getbin`: try the previous bin first, then scan upward from it or
      from the first bin. */
  function GetBin(x: real, th: seq<real>, lastBin: nat, nb: nat): (b: nat)
    requires 1 <= nb == |th| && lastBin < nb
    ensures b < nb
    ensures b == nb - 1 || x < th[b]
    ensures lastBin > 0 && th[lastBin - 1] <= x < th[lastBin] ==> b == lastBin
    ensures lastBin == 0 && x < th[0] ==> b == 0
  {
    if lastBin == 0 && x < th[lastBin] then 0
    else if lastBin > 0 && x >= th[lastBin - 1] && x < th[lastBin] then lastBin
    else if x >= th[lastBin] then ScanBins(x, th, lastBin + 1, nb)
    else ScanBins(x, th, 0, nb)
  }

  /** Bin `b` is where `x` belongs: every earlier threshold is at most `x`,
      and `x` is below threshold `b` unless `b` is the last bin. */
  ghost predicate IsBin(x: real, th: seq<real>, b: nat) {
    && b < |th|
    && (forall k :: 0 <= k < b ==> th[k] <= x)
    && (x < th[b] || b == |th| - 1)
  }

  lemma {:induction false} ScanBinsIsBin(x: real, th: seq<real>, from: nat)
    requires 1 <= |th| && from <= |th|
    requires forall k :: 0 <= k < from ==> th[k] <= x
    ensures IsBin(x, th, ScanBins(x, th, from, |th|))
    decreases |th| - from
  {
    if from < |th| && !(x < th[from]) {
      ScanBinsIsBin(x, th, from + 1);
    }
  }

  /** There is one bin for each value. */
  lemma IsBinUnique(x: real, th: seq<real>, b1: nat, b2: nat)
    requires IsBin(x, th, b1) && IsBin(x, th, b2)
    ensures b1 == b2
  {
  }

  /** Reference definition of the bin of `x`. */
  function BinOf(x: real, th: seq<real>): (b: nat)
    requires 1 <= |th|
    ensures IsBin(x, th, b)
  {
    ScanBinsIsBin(x, th, 0);
    ScanBins(x, th, 0, |th|)
  }

  /** With sorted thresholds the shortcuts of `getbin` never change the
      answer: the bin does not depend on the previous bin. */
  lemma GetBinSeedFree(x: real, th: seq<real>, lastBin: nat)
    requires 1 <= |th| && lastBin < |th| && Sorted(th)
    ensures GetBin(x, th, lastBin, |th|) == BinOf(x, th)
  {
    var nb := |th|;
    var b := GetBin(x, th, lastBin, nb);
    if lastBin == 0 && x < th[lastBin] {
    } else if lastBin > 0 && x >= th[lastBin - 1] && x < th[lastBin] {
      assert forall k :: 0 <= k < lastBin ==> th[k] <= th[lastBin - 1];
    } else if x >= th[lastBin] {
      assert forall k :: 0 <= k <= lastBin ==> th[k] <= th[lastBin];
      ScanBinsIsBin(x, th, lastBin + 1);
    } else {
      ScanBinsIsBin(x, th, 0);
    }
    IsBinUnique(x, th, b, BinOf(x, th));
  }

  /** Upper edge of bin `i` of `nb`: `(i + 1) * 360 / nb`. */
  function Edge(i: nat, nb: nat): real
    requires i < nb
  {
    (i + 1) as real * 360.0 / nb as real
  }

  /** The first `k` bin edges, built one at a time as the program's loop
      does. */
  function Edges(k: nat, nb: nat): (th: seq<real>)
    requires k <= nb
    ensures |th| == k
  {
    if k == 0 then [] else Edges(k - 1, nb) + [Edge(k - 1, nb)]
  }

  lemma {:induction false} EdgeAt(k: nat, nb: nat, i: nat)
    requires i < k <= nb
    ensures Edges(k, nb)[i] == Edge(i, nb)
  {
    if i < k - 1 {
      EdgeAt(k - 1, nb, i);
    }
  }

  /** The thresholds `360/nb, 2*360/nb, ..., 360`: bin `b` holds phases in
      `[b*360/nb, (b+1)*360/nb)`. */
  function Thresholds(nb: nat): (th: seq<real>)
    ensures |th| == nb
    ensures forall i :: 0 <= i < nb ==> th[i] == Edge(i, nb)
  {
    var e := Edges(nb, nb);
    assert forall i :: 0 <= i < nb ==> e[i] == Edge(i, nb) by {
      forall i | 0 <= i < nb ensures e[i] == Edge(i, nb) {
        EdgeAt(nb, nb, i);
      }
    }
    e
  }

  lemma ThresholdsSorted(nb: nat)
    ensures Sorted(Thresholds(nb))
  {
    var th := Thresholds(nb);
    forall i, j | 0 <= i <= j < nb ensures th[i] <= th[j] {
      EdgeAt(nb, nb, i);
      EdgeAt(nb, nb, j);
      DivMonotone((i + 1) as real * 360.0, (j + 1) as real * 360.0, nb as real);
    }
  }

  lemma DivMonotone(a: real, b: real, d: real)
    requires a <= b && d > 0.0
    ensures a / d <= b / d
  {
    assert b / d - a / d == (b - a) / d;
  }

  /** A phase in `[0, 360)` lands in the bin whose range contains it. */
  lemma BinRange(nb: nat, x: real)
    requires 1 <= nb && 0.0 <= x < 360.0
    ensures var b := BinOf(x, Thresholds(nb));
            b as real * 360.0 / nb as real <= x < (b + 1) as real * 360.0 / nb as real
  {
    var th := Thresholds(nb);
    var b := BinOf(x, th);
    if b > 0 {
      EdgeAt(nb, nb, b - 1);
    }
    EdgeAt(nb, nb, b);
    if b == nb - 1 {
      assert Edge(b, nb) == 360.0;
    }
  }

  /** Running sum and count of one bin. */
  datatype Bin = Bin(sum: real, count: nat)

  predicate InMask(mask: Option<seq<bool>>, p: nat) {
    mask.None? || (p < |mask.value| && mask.value[p])
  }

  /** The samples of `[lo, hi)` that pass the optional mask, ascending. */
  function Segment(lo: nat, hi: nat, mask: Option<seq<bool>>): (ps: seq<nat>)
    ensures forall k :: 0 <= k < |ps| ==> lo <= ps[k] < hi && InMask(mask, ps[k])
    decreases hi
  {
    if hi <= lo then []
    else Segment(lo, hi - 1, mask) + (if InMask(mask, hi - 1) then [hi - 1] else [])
  }

  /** Every sample of `[lo, hi)` that passes the mask is visited. */
  lemma {:induction false} SegmentComplete(lo: nat, hi: nat, mask: Option<seq<bool>>, p: nat)
    requires lo <= p < hi && InMask(mask, p)
    ensures p in Segment(lo, hi, mask)
    decreases hi
  {
    if p < hi - 1 {
      SegmentComplete(lo, hi - 1, mask, p);
    }
  }

  /** The samples the averaging visits over the first `k` waves, each
      wave's closed interval in order. */
  function Visited(sw: seq<Wave>, k: nat, mask: Option<seq<bool>>): seq<nat>
    requires k <= |sw|
  {
    if k == 0 then [] else Visited(sw, k - 1, mask) + Segment(sw[k - 1].start, sw[k - 1].stop + 1, mask)
  }

  predicate Below(ps: seq<nat>, n: nat) {
    forall k :: 0 <= k < |ps| ==> ps[k] < n
  }

  lemma {:induction false} VisitedBelow(sw: seq<Wave>, k: nat, mask: Option<seq<bool>>, n: nat)
    requires k <= |sw|
    requires forall i :: 0 <= i < |sw| ==> sw[i].stop < n
    ensures Below(Visited(sw, k, mask), n)
  {
    if k > 0 {
      VisitedBelow(sw, k - 1, mask, n);
    }
  }

  /** Reference accumulation: each visited sample adds its signal value to
      the bin of its phase. */
  function Tally(th: seq<real>, phase: seq<real>, sig: seq<real>, ps: seq<nat>): (t: seq<Bin>)
    requires 1 <= |th|
    ensures |t| == |th|
  {
    if |ps| == 0 then seq(|th|, _ => Bin(0.0, 0))
    else
      var t := Tally(th, phase, sig, ps[..|ps| - 1]);
      var p := ps[|ps| - 1];
      if p < |phase| && p < |sig| then AddSample(t, th, phase[p], sig[p]) else t
  }

  /** Add value `v` at phase `x` to its bin. */
  function AddSample(t: seq<Bin>, th: seq<real>, x: real, v: real): (u: seq<Bin>)
    requires 1 <= |th| == |t|
    ensures |u| == |t|
  {
    var b := BinOf(x, th);
    t[b := Bin(t[b].sum + v, t[b].count + 1)]
  }

  function TotalCount(t: seq<Bin>): nat {
    if |t| == 0 then 0 else TotalCount(t[..|t| - 1]) + t[|t| - 1].count
  }

  function TotalSum(t: seq<Bin>): real {
    if |t| == 0 then 0.0 else TotalSum(t[..|t| - 1]) + t[|t| - 1].sum
  }

  /** The signal total over the samples `ps`; a sample past the end of the
      signal adds nothing, as in `Tally`. */
  function SumAt(sig: seq<real>, ps: seq<nat>): real {
    if |ps| == 0 then 0.0
    else
      var p := ps[|ps| - 1];
      SumAt(sig, ps[..|ps| - 1]) + (if p < |sig| then sig[p] else 0.0)
  }

  lemma {:induction false} TotalsOfUpdate(t: seq<Bin>, b: nat, v: real)
    requires b < |t|
    ensures TotalCount(t[b := Bin(t[b].sum + v, t[b].count + 1)]) == TotalCount(t) + 1
    ensures TotalSum(t[b := Bin(t[b].sum + v, t[b].count + 1)]) == TotalSum(t) + v
  {
    var u := t[b := Bin(t[b].sum + v, t[b].count + 1)];
    if b < |t| - 1 {
      assert u[..|u| - 1] == t[..|t| - 1][b := Bin(t[b].sum + v, t[b].count + 1)];
      TotalsOfUpdate(t[..|t| - 1], b, v);
    } else {
      assert u[..|u| - 1] == t[..|t| - 1];
    }
  }

  lemma {:induction false} TotalsOfZero(n: nat)
    ensures TotalCount(seq(n, _ => Bin(0.0, 0))) == 0
    ensures TotalSum(seq(n, _ => Bin(0.0, 0))) == 0.0
  {
    if n > 0 {
      assert seq(n, _ => Bin(0.0, 0))[..n - 1] == seq(n - 1, _ => Bin(0.0, 0));
      TotalsOfZero(n - 1);
    }
  }

  /** Nothing is lost or counted twice: the bin counts add up to the
      number of visited samples and the bin sums to their signal total. */
  lemma {:induction false} TallyConserves(th: seq<real>, phase: seq<real>, sig: seq<real>, ps: seq<nat>)
    requires 1 <= |th| && Below(ps, |phase|) && Below(ps, |sig|)
    ensures TotalCount(Tally(th, phase, sig, ps)) == |ps|
    ensures TotalSum(Tally(th, phase, sig, ps)) == SumAt(sig, ps)
  {
    if |ps| == 0 {
      TotalsOfZero(|th|);
    } else {
      var init := ps[..|ps| - 1];
      TallyConserves(th, phase, sig, init);
      var t := Tally(th, phase, sig, init);
      var p := ps[|ps| - 1];
      TotalsOfUpdate(t, BinOf(phase[p], th), sig[p]);
      assert Tally(th, phase, sig, ps) == AddSample(t, th, phase[p], sig[p]);
    }
  }

  /** The mean of a bin; an empty bin has none (0/0 in the program). */
  function Mean(b: Bin): Option<real> {
    if b.count == 0 then None else Some(b.sum / b.count as real)
  }

  lemma TallySnoc(th: seq<real>, phase: seq<real>, sig: seq<real>, ps: seq<nat>, p: nat)
    requires 1 <= |th| && p < |phase| && p < |sig|
    ensures Tally(th, phase, sig, ps + [p]) == AddSample(Tally(th, phase, sig, ps), th, phase[p], sig[p])
  {
    assert (ps + [p])[..|ps|] == ps;
  }

  lemma SegmentStep(ps: seq<nat>, lo: nat, p: nat, mask: Option<seq<bool>>)
    requires lo <= p
    ensures ps + Segment(lo, p + 1, mask) == (ps + Segment(lo, p, mask)) + (if InMask(mask, p) then [p] else [])
  {
  }

  /** The inner loop of `phase_locked_averaging` over one wave's closed
      interval, starting again from bin 0. */
  method TallyWave(th: seq<real>, phase: seq<real>, sig: seq<real>, mask: Option<seq<bool>>, w: Wave,
                   ghost ps: seq<nat>, acc0: seq<Bin>) returns (acc: seq<Bin>)
    requires 1 <= |th| && Sorted(th)
    requires w.start <= w.stop && w.stop < |phase| && w.stop < |sig|
    requires acc0 == Tally(th, phase, sig, ps)
    ensures acc == Tally(th, phase, sig, ps + Segment(w.start, w.stop + 1, mask))
  {
    var lo, hi := w.start, w.stop;
    acc := acc0;
    var lastBin: nat := 0;
    var p := lo;
    ghost var qs := ps;
    assert Segment(lo, p, mask) == [] && qs + [] == qs;
    while p <= hi
      invariant lo <= p <= hi + 1 && lastBin < |th|
      invariant qs == ps + Segment(lo, p, mask)
      invariant acc == Tally(th, phase, sig, qs)
    {
      acc, lastBin := TallySample(th, phase, sig, mask, p, qs, acc, lastBin);
      SegmentStep(ps, lo, p, mask);
      qs := qs + (if InMask(mask, p) then [p] else []);
      p := p + 1;
    }
  }

  /** One sample of the inner loop: a sample outside the mask changes
      nothing; otherwise its value goes to the bin `getbin` finds, which
      becomes the next previous bin. */
  method TallySample(th: seq<real>, phase: seq<real>, sig: seq<real>, mask: Option<seq<bool>>, p: nat,
                     ghost qs: seq<nat>, acc0: seq<Bin>, lastBin0: nat) returns (acc: seq<Bin>, lastBin: nat)
    requires 1 <= |th| && Sorted(th) && lastBin0 < |th|
    requires p < |phase| && p < |sig|
    requires acc0 == Tally(th, phase, sig, qs)
    ensures lastBin < |th|
    ensures acc == Tally(th, phase, sig, qs + (if InMask(mask, p) then [p] else []))
  {
    acc, lastBin := acc0, lastBin0;
    if InMask(mask, p) {
      var b := GetBin(phase[p], th, lastBin, |th|);
      GetBinSeedFree(phase[p], th, lastBin);
      lastBin := b;
      acc := acc[b := Bin(acc[b].sum + sig[p], acc[b].count + 1)];
      TallySnoc(th, phase, sig, qs, p);
    } else {
      assert qs + [] == qs;
    }
  }

  /** The loop over the waves, the previous bin reset at each. */
  method TallyWaves(th: seq<real>, phase: seq<real>, sig: seq<real>, sw: seq<Wave>, mask: Option<seq<bool>>)
    returns (acc: seq<Bin>)
    requires 1 <= |th| && Sorted(th)
    requires forall i :: 0 <= i < |sw| ==> sw[i].start <= sw[i].stop && sw[i].stop < |phase| && sw[i].stop < |sig|
    ensures acc == Tally(th, phase, sig, Visited(sw, |sw|, mask))
  {
    acc := seq(|th|, _ => Bin(0.0, 0));
    var i := 0;
    while i < |sw|
      invariant 0 <= i <= |sw|
      invariant acc == Tally(th, phase, sig, Visited(sw, i, mask))
    {
      acc := TallyNext(th, phase, sig, sw, mask, i, acc);
      i := i + 1;
    }
  }

  /** One more wave. */
  method TallyNext(th: seq<real>, phase: seq<real>, sig: seq<real>, sw: seq<Wave>, mask: Option<seq<bool>>,
                   i: nat, acc0: seq<Bin>) returns (acc: seq<Bin>)
    requires 1 <= |th| && Sorted(th)
    requires i < |sw| && sw[i].start <= sw[i].stop && sw[i].stop < |phase| && sw[i].stop < |sig|
    requires acc0 == Tally(th, phase, sig, Visited(sw, i, mask))
    ensures acc == Tally(th, phase, sig, Visited(sw, i + 1, mask))
  {
    acc := TallyWave(th, phase, sig, mask, sw[i], Visited(sw, i, mask), acc0);
  }

  /** `phase_locked_averaging`: per-bin sums and counts of `sig` over every
      wave's samples that pass the optional mask, binned by phase with
      `getbin` and the previous bin reset to 0 at each wave; no waves give
      an empty result. */
  method PhaseLocked(sig: seq<real>, phase: seq<real>, sw: seq<Wave>, nbins: nat, mask: Option<seq<bool>>)
    returns (acc: seq<Bin>, means: seq<Option<real>>)
    requires |sw| > 0 ==> nbins >= 1
    requires forall i :: 0 <= i < |sw| ==> sw[i].start <= sw[i].stop && sw[i].stop < |phase| && sw[i].stop < |sig|
    requires mask.Some? ==> forall i :: 0 <= i < |sw| ==> sw[i].stop < |mask.value|
    ensures |sw| == 0 ==> means == []
    ensures |sw| > 0 ==>
              && acc == Tally(Thresholds(nbins), phase, sig, Visited(sw, |sw|, mask))
              && TotalCount(acc) == |Visited(sw, |sw|, mask)|
              && TotalSum(acc) == SumAt(sig, Visited(sw, |sw|, mask))
              && |means| == nbins
              && forall b :: 0 <= b < nbins ==> means[b] == Mean(acc[b])
  {
    if |sw| == 0 {
      return [], [];
    }
    var th := Thresholds(nbins);
    ThresholdsSorted(nbins);
    acc := TallyWaves(th, phase, sig, sw, mask);
    VisitedBelow(sw, |sw|, mask, |phase|);
    VisitedBelow(sw, |sw|, mask, |sig|);
    TallyConserves(th, phase, sig, Visited(sw, |sw|, mask));
    means := seq(nbins, b requires 0 <= b < nbins => Mean(acc[b]));
  }
}
