/** Event segmentation and peak extraction of `detect_slow_waves`
    (dsp/slow-waves.cpp:515-643): zero crossings of the configured polarity,
    pairing of consecutive crossings, rejection of pairs that span a
    discontinuity or fail a duration bound, and the peaks and internal
    crossing of each surviving candidate. */
module Segmenter {
  import opened Wrappers
  import opened WaveTypes

  /** The sign a wave opens with: negative for positive-to-negative
      crossings, non-negative for negative-to-positive ones. */
  predicate Leading(pol: Polarity, x: real) {
    match pol
    case PosToNeg => x < 0.0
    case NegToPos => x >= 0.0
  }

  /** A crossing of the configured polarity at sample `k`. */
  predicate IsCrossing(f: seq<real>, pol: Polarity, k: int) {
    1 <= k < |f| && Leading(pol, f[k]) && !Leading(pol, f[k - 1])
  }

  /** A crossing of the opposite polarity at sample `j`: the one that splits
      a wave into its two half-waves. */
  predicate IsMidCrossing(f: seq<real>, pol: Polarity, j: int) {
    1 <= j < |f| && Leading(pol, f[j - 1]) && !Leading(pol, f[j])
  }

  /** `a` and `b` are crossings with no crossing strictly between them. */
  predicate Consecutive(f: seq<real>, pol: Polarity, a: nat, b: nat) {
    && a < b
    && IsCrossing(f, pol, a)
    && IsCrossing(f, pol, b)
    && forall j :: a < j < b ==> !IsCrossing(f, pol, j)
  }

  /** The crossings among samples `[0, n)`, in scan order. */
  function CrossingsBelow(f: seq<real>, pol: Polarity, n: nat): (zc: seq<nat>)
    requires n <= |f|
    ensures forall k :: 0 <= k < |zc| ==> zc[k] < n && IsCrossing(f, pol, zc[k])
    ensures forall k, l :: 0 <= k < l < |zc| ==> zc[k] < zc[l]
    ensures forall j :: 0 <= j < n && IsCrossing(f, pol, j) ==> j in zc
  {
    if n <= 1 then []
    else
      var prev := CrossingsBelow(f, pol, n - 1);
      if IsCrossing(f, pol, n - 1) then prev + [n - 1] else prev
  }

  /** All crossings of the trace (the vector `zc`). */
  function ZeroCrossings(f: seq<real>, pol: Polarity): (zc: seq<nat>)
    ensures forall j :: j in zc <==> IsCrossing(f, pol, j)
    ensures forall k, l :: 0 <= k < l < |zc| ==> zc[k] < zc[l]
  {
    CrossingsBelow(f, pol, |f|)
  }

  /** Neighbouring entries of the crossing list are consecutive crossings. */
  lemma NeighboursConsecutive(f: seq<real>, pol: Polarity, k: nat)
    requires 1 <= k < |ZeroCrossings(f, pol)|
    ensures Consecutive(f, pol, ZeroCrossings(f, pol)[k - 1], ZeroCrossings(f, pol)[k])
  {
    var zc := ZeroCrossings(f, pol);
    assert zc[k - 1] in zc && zc[k] in zc;
    forall j | zc[k - 1] < j < zc[k]
      ensures !IsCrossing(f, pol, j)
    {
      forall l | 0 <= l < |zc| ensures zc[l] != j {
        if l < k {
          assert l == k - 1 || zc[l] < zc[k - 1];
        } else {
          assert l == k || zc[k] < zc[l];
        }
      }
      assert j !in zc;
    }
  }

  /** Inside a pair of consecutive crossings the trace keeps its trailing
      sign once it has taken it: the wave is one run of the leading sign
      followed by one run of the trailing sign. */
  lemma {:induction false} TrailingPersists(f: seq<real>, pol: Polarity, a: nat, b: nat, j: nat, k: nat)
    requires Consecutive(f, pol, a, b)
    requires a <= j <= k < b && !Leading(pol, f[j])
    ensures !Leading(pol, f[k])
    decreases k - j
  {
    if j < k {
      TrailingPersists(f, pol, a, b, j, k - 1);
      assert !IsCrossing(f, pol, k);
    }
  }

  /** The first sample of `[j, b)` with the trailing sign: the internal
      crossing of a wave, as a reference definition independent of how the
      program searches for it. */
  function FirstTrailing(f: seq<real>, pol: Polarity, j: nat, b: nat): (m: nat)
    requires j < b <= |f| && !Leading(pol, f[b - 1])
    ensures j <= m < b && !Leading(pol, f[m])
    ensures forall k :: j <= k < m ==> Leading(pol, f[k])
    decreases b - j
  {
    if !Leading(pol, f[j]) then j else FirstTrailing(f, pol, j + 1, b)
  }

  /** A pair of consecutive crossings has exactly one internal crossing, and
      it is `FirstTrailing`. */
  lemma MidCrossingUnique(f: seq<real>, pol: Polarity, a: nat, b: nat, j: nat)
    requires Consecutive(f, pol, a, b)
    requires a < j < b
    ensures IsMidCrossing(f, pol, j) <==> j == FirstTrailing(f, pol, a, b)
  {
    var m := FirstTrailing(f, pol, a, b);
    if IsMidCrossing(f, pol, j) && j != m {
      if j > m {
        TrailingPersists(f, pol, a, b, m, j - 1);
      }
    }
    if j == m {
      assert m > a;
    }
  }

  /** First-occurrence minimum scan of samples `[j, b)`, starting from the
      running minimum `x` at index `xi` (the `filtered[j] < x` update). */
  function MinScan(f: seq<real>, j: nat, b: nat, x: real, xi: nat): (r: (real, nat))
    requires j <= b <= |f|
    ensures || (r == (x, xi) && forall k :: j <= k < b ==> f[k] >= x)
            || (&& j <= r.1 < b && r.0 == f[r.1] && r.0 < x
                && (forall k :: j <= k < b ==> f[k] >= r.0)
                && (forall k :: j <= k < r.1 ==> f[k] > r.0))
    decreases b - j
  {
    if j == b then (x, xi)
    else if f[j] < x then MinScan(f, j + 1, b, f[j], j)
    else MinScan(f, j + 1, b, x, xi)
  }

  /** First-occurrence maximum scan of samples `[j, b)` (the
      `filtered[j] > y` update). */
  function MaxScan(f: seq<real>, j: nat, b: nat, y: real, yi: nat): (r: (real, nat))
    requires j <= b <= |f|
    ensures || (r == (y, yi) && forall k :: j <= k < b ==> f[k] <= y)
            || (&& j <= r.1 < b && r.0 == f[r.1] && r.0 > y
                && (forall k :: j <= k < b ==> f[k] <= r.0)
                && (forall k :: j <= k < r.1 ==> f[k] < r.0))
    decreases b - j
  {
    if j == b then (y, yi)
    else if f[j] > y then MaxScan(f, j + 1, b, f[j], j)
    else MaxScan(f, j + 1, b, y, yi)
  }

  /** Scan of `[j, hi]` for crossings of the opposite polarity, keeping the
      last one found; `acc` is the value kept when there is none. */
  function LastMidScan(f: seq<real>, pol: Polarity, j: nat, hi: nat, acc: nat): (r: nat)
    requires 1 <= j && hi < |f|
    ensures || (r == acc && forall k :: j <= k <= hi ==> !IsMidCrossing(f, pol, k))
            || (&& j <= r <= hi && IsMidCrossing(f, pol, r)
                && forall k :: r < k <= hi ==> !IsMidCrossing(f, pol, k))
    decreases hi + 1 - j
  {
    if j > hi then acc
    else if IsMidCrossing(f, pol, j) then LastMidScan(f, pol, j + 1, hi, j)
    else LastMidScan(f, pol, j + 1, hi, acc)
  }

  /** Sentinels of the peak scans (`double x = 100; double y = -99;`). */
  const DownSentinel: real := 100.0
  const UpSentinel: real := -99.0

  /** Whole-wave duration check, enabled only when `t_lwr > 0`. The
      interval runs from the start tick to one tick before the stop tick. */
  predicate WholeRejected(env: Env, cfg: Config, startTp: nat, stopTp: nat) {
    var t := env.secs(startTp, stopTp - 1);
    cfg.tLwr > 0.0 && (t < cfg.tLwr || t > cfg.tUpr)
  }

  /** Negative half-wave duration check, enabled only when `t_neg_lwr > 0`:
      the negative half is `[start, mid)` by default and `[mid, stop)` under
      `neg2pos`. */
  predicate HalfRejected(env: Env, cfg: Config, startTp: nat, stopTp: nat, midTp: nat) {
    var t := match cfg.polarity
             case NegToPos => env.secs(midTp, stopTp - 1)
             case PosToNeg => env.secs(startTp, midTp - 1);
    cfg.tNegLwr > 0.0 && (t < cfg.tNegLwr || t > cfg.tNegUpr)
  }

  /** A pair of consecutive crossings survives segmentation. */
  predicate Kept(f: seq<real>, tp: seq<nat>, env: Env, cfg: Config, a: nat, b: nat) {
    && |tp| == |f|
    && Consecutive(f, cfg.polarity, a, b)
    && var m := FirstTrailing(f, cfg.polarity, a, b);
    && !env.disc(a, b)
    && !WholeRejected(env, cfg, tp[a], tp[b])
    && !HalfRejected(env, cfg, tp[a], tp[b], tp[m])
  }

  /** Sample `k` lies in `[a, b)`. */
  predicate Within(a: int, b: int, k: int) {
    a <= k < b
  }

  /** What every candidate wave satisfies: its interval is a pair of
      consecutive crossings, its peaks are the first minimum and first
      maximum of `[start, stop)`, the down peak is negative and the up peak
      is not, and `mid` is the one internal crossing, strictly after the
      earlier peak and at or before the later one. */
  ghost predicate WellFormed(f: seq<real>, tp: seq<nat>, cfg: Config, w: Wave) {
    && |tp| == |f|
    && w.kind == cfg.kind
    && Consecutive(f, cfg.polarity, w.start, w.stop)
    && w.startTp == tp[w.start] && w.stopTp == tp[w.stop]
    && w.start <= w.downSp < w.stop && w.down == f[w.downSp] && w.downTp == tp[w.downSp]
    && (forall k {:trigger Within(w.start, w.stop, k)} :: Within(w.start, w.stop, k) ==> f[k] >= w.down)
    && (forall k {:trigger Within(w.start, w.downSp, k)} :: Within(w.start, w.downSp, k) ==> f[k] > w.down)
    && w.start <= w.upSp < w.stop && w.up == f[w.upSp] && w.upTp == tp[w.upSp]
    && (forall k {:trigger Within(w.start, w.stop, k)} :: Within(w.start, w.stop, k) ==> f[k] <= w.up)
    && (forall k {:trigger Within(w.start, w.upSp, k)} :: Within(w.start, w.upSp, k) ==> f[k] < w.up)
    && w.down < 0.0 <= w.up
    && IsMidCrossing(f, cfg.polarity, w.mid) && w.midTp == tp[w.mid]
    && (if w.downSp < w.upSp then w.downSp < w.mid <= w.upSp else w.upSp < w.mid <= w.downSp)
    && (forall j :: w.start < j < w.stop && IsMidCrossing(f, cfg.polarity, j) ==> j == w.mid)
  }

  /** A well-formed wave is determined by its start sample: the stop is
      the next crossing, the peaks are first extrema and the internal
      crossing is unique. */
  lemma WellFormedDetermined(f: seq<real>, tp: seq<nat>, cfg: Config, w1: Wave, w2: Wave)
    requires WellFormed(f, tp, cfg, w1) && WellFormed(f, tp, cfg, w2)
    requires w1.start == w2.start
    ensures w1 == w2
  {
    var pol := cfg.polarity;
    assert w1.stop == w2.stop by {
      assert !(w1.start < w2.stop < w1.stop) || !IsCrossing(f, pol, w2.stop);
      assert !(w2.start < w1.stop < w2.stop) || !IsCrossing(f, pol, w1.stop);
    }
    assert w1.downSp == w2.downSp by {
      assert Within(w1.start, w1.stop, w2.downSp) && Within(w2.start, w2.stop, w1.downSp);
      assert w1.downSp < w2.downSp ==> Within(w2.start, w2.downSp, w1.downSp);
      assert w2.downSp < w1.downSp ==> Within(w1.start, w1.downSp, w2.downSp);
    }
    assert w1.upSp == w2.upSp by {
      assert Within(w1.start, w1.stop, w2.upSp) && Within(w2.start, w2.stop, w1.upSp);
      assert w1.upSp < w2.upSp ==> Within(w2.start, w2.upSp, w1.upSp);
      assert w2.upSp < w1.upSp ==> Within(w1.start, w1.upSp, w2.upSp);
    }
    assert w1.start < w2.mid < w1.stop;
  }

  /** A pair of consecutive crossings holds a negative and a non-negative
      sample, so both peak sentinels are replaced and the down peak lies in
      the leading run or the trailing run as the polarity dictates. */
  lemma PeaksReplaced(f: seq<real>, pol: Polarity, a: nat, b: nat)
    requires Consecutive(f, pol, a, b)
    ensures MinScan(f, a, b, DownSentinel, 0).0 < 0.0
    ensures MaxScan(f, a, b, UpSentinel, 0).0 >= 0.0
    ensures a <= MinScan(f, a, b, DownSentinel, 0).1 < b
    ensures a <= MaxScan(f, a, b, UpSentinel, 0).1 < b
  {
    var lo := MinScan(f, a, b, DownSentinel, 0);
    var hi := MaxScan(f, a, b, UpSentinel, 0);
    var neg, nonneg := if pol == PosToNeg then a else b - 1, if pol == PosToNeg then b - 1 else a;
    assert f[neg] < 0.0 && f[nonneg] >= 0.0;
    assert a <= neg < b && a <= nonneg < b;
  }

  /** The internal-crossing scan between the two peaks finds the unique
      internal crossing, which is never sample 0: the program's
      `halt("problem")` cannot be reached. */
  lemma MidScanFinds(f: seq<real>, pol: Polarity, a: nat, b: nat, p1: nat, p2: nat)
    requires Consecutive(f, pol, a, b)
    requires a <= p1 < b && a <= p2 < b
    requires f[p1] < 0.0 <= f[p2] || f[p2] < 0.0 <= f[p1]
    ensures var lo := if p1 < p2 then p1 else p2;
            var hi := if p1 < p2 then p2 else p1;
            var r := LastMidScan(f, pol, lo, hi, 0);
            && r == FirstTrailing(f, pol, a, b)
            && lo < r <= hi
  {
    var lo := if p1 < p2 then p1 else p2;
    var hi := if p1 < p2 then p2 else p1;
    var m := FirstTrailing(f, pol, a, b);
    // the earlier peak carries the leading sign, the later one the trailing sign
    if !Leading(pol, f[lo]) {
      TrailingPersists(f, pol, a, b, lo, hi);
      assert false;
    }
    assert lo < m by {
      if m <= lo { TrailingPersists(f, pol, a, b, m, lo); }
    }
    assert m <= hi;
    assert m > a;
    MidCrossingUnique(f, pol, a, b, m);
    var r := LastMidScan(f, pol, lo, hi, 0);
    if r != m {
      MidCrossingUnique(f, pol, a, b, r);
    }
  }

  /** Peaks and internal crossing of the pair `(a, b)`
      (slow-waves.cpp:563-611); halts with "problem" when no internal
      crossing lies between the peaks, which the contract shows never
      happens. */
  function Measure(f: seq<real>, tp: seq<nat>, cfg: Config, a: nat, b: nat): (r: Result<Wave, Halt>)
    requires |tp| == |f| && Consecutive(f, cfg.polarity, a, b)
    ensures r.Success?
    ensures WellFormed(f, tp, cfg, r.value) && r.value.start == a && r.value.stop == b
    ensures r.value.mid == FirstTrailing(f, cfg.polarity, a, b)
  {
    PeaksReplaced(f, cfg.polarity, a, b);
    var (x, xi) := MinScan(f, a, b, DownSentinel, 0);
    var (y, yi) := MaxScan(f, a, b, UpSentinel, 0);
    var peak1 := if xi < yi then xi else yi;
    var peak2 := if xi < yi then yi else xi;
    var n2pi := LastMidScan(f, cfg.polarity, peak1, peak2, 0);
    MidScanFinds(f, cfg.polarity, a, b, xi, yi);
    if n2pi == 0 then Failure(NoMidCrossing)
    else
      var w := Wave(cfg.kind, a, b, tp[a], tp[b], x, xi, tp[xi], y, yi, tp[yi], n2pi, tp[n2pi]);
      MeasuredWellFormed(f, tp, cfg, w);
      Success(w)
  }

  /** The wave assembled by `Measure` is well formed. */
  lemma MeasuredWellFormed(f: seq<real>, tp: seq<nat>, cfg: Config, w: Wave)
    requires |tp| == |f| && Consecutive(f, cfg.polarity, w.start, w.stop)
    requires w.kind == cfg.kind
    requires w.startTp == tp[w.start] && w.stopTp == tp[w.stop]
    requires (w.down, w.downSp) == MinScan(f, w.start, w.stop, DownSentinel, 0)
    requires (w.up, w.upSp) == MaxScan(f, w.start, w.stop, UpSentinel, 0)
    requires w.downTp == tp[w.downSp] && w.upTp == tp[w.upSp]
    requires w.mid == FirstTrailing(f, cfg.polarity, w.start, w.stop) && w.midTp == tp[w.mid]
    ensures WellFormed(f, tp, cfg, w)
  {
    var a, b := w.start, w.stop;
    PeaksReplaced(f, cfg.polarity, a, b);
    MidScanFinds(f, cfg.polarity, a, b, w.downSp, w.upSp);
    MidCrossingUnique(f, cfg.polarity, a, b, w.mid);
    forall j | a < j < b && IsMidCrossing(f, cfg.polarity, j)
      ensures j == w.mid
    {
      MidCrossingUnique(f, cfg.polarity, a, b, j);
    }
  }

  /** The candidate built from the pair of consecutive crossings `(a, b)`,
      or `None` when the pair is skipped (slow-waves.cpp:547-641). */
  function PairWave(f: seq<real>, tp: seq<nat>, env: Env, cfg: Config, a: nat, b: nat): (r: Result<Option<Wave>, Halt>)
    requires |tp| == |f| && Consecutive(f, cfg.polarity, a, b)
    ensures r.Success?
    ensures r.value.None? <==> !Kept(f, tp, env, cfg, a, b)
    ensures r.value.Some? ==> WellFormed(f, tp, cfg, r.value.value)
    ensures r.value.Some? ==> r.value.value.start == a && r.value.value.stop == b
  {
    if env.disc(a, b) then Success(None)
    else if WholeRejected(env, cfg, tp[a], tp[b]) then Success(None)
    else
      match Measure(f, tp, cfg, a, b)
      case Failure(e) => Failure(e)
      case Success(w) =>
        if HalfRejected(env, cfg, tp[a], tp[b], w.midTp) then Success(None)
        else Success(Some(w))
  }

  /** The start samples of a list of waves. */
  function Starts(ws: seq<Wave>): set<nat> {
    set i | 0 <= i < |ws| :: ws[i].start
  }

  /** Every wave of `ws` is well formed (stated recursively, element by
      element from the end, as the candidate list is built). */
  ghost predicate AllWellFormed(f: seq<real>, tp: seq<nat>, cfg: Config, ws: seq<Wave>) {
    |ws| > 0 ==> AllWellFormed(f, tp, cfg, ws[..|ws| - 1]) && WellFormed(f, tp, cfg, ws[|ws| - 1])
  }

  lemma {:induction false} AllWellFormedEach(f: seq<real>, tp: seq<nat>, cfg: Config, ws: seq<Wave>, i: nat)
    requires AllWellFormed(f, tp, cfg, ws) && i < |ws|
    ensures WellFormed(f, tp, cfg, ws[i])
  {
    if i < |ws| - 1 {
      AllWellFormedEach(f, tp, cfg, ws[..|ws| - 1], i);
    }
  }

  /** Shape of a prefix of the candidate list that has processed the pairs
      of crossings `1 .. n-1`: well formed, before `zc[n-1]`, in order. */
  ghost predicate PrefixShape(f: seq<real>, tp: seq<nat>, cfg: Config, zc: seq<nat>, n: nat, ws: seq<Wave>)
    requires 1 <= n <= |zc|
  {
    && AllWellFormed(f, tp, cfg, ws)
    && (forall i :: 0 <= i < |ws| ==> ws[i].stop <= zc[n - 1])
    && (forall i, j :: 0 <= i < j < |ws| ==> ws[i].stop <= ws[j].start)
  }

  /** The pairs `1 .. n-1` that yielded a candidate are exactly the kept ones. */
  ghost predicate PrefixKept(f: seq<real>, tp: seq<nat>, env: Env, cfg: Config, zc: seq<nat>, n: nat, ws: seq<Wave>)
    requires 1 <= n <= |zc|
  {
    forall k :: 1 <= k < n ==> (zc[k - 1] in Starts(ws) <==> Kept(f, tp, env, cfg, zc[k - 1], zc[k]))
  }

  /** The candidates from the pairs `1 .. n-1` of the crossing list `zc`,
      in order (the loop at slow-waves.cpp:542-643). */
  function CandidatesUpTo(f: seq<real>, tp: seq<nat>, env: Env, cfg: Config, zc: seq<nat>, n: nat): seq<Wave>
    requires |tp| == |f| && zc == ZeroCrossings(f, cfg.polarity)
    requires 1 <= n <= |zc|
  {
    if n == 1 then []
    else
      NeighboursConsecutive(f, cfg.polarity, n - 1);
      Extend(CandidatesUpTo(f, tp, env, cfg, zc, n - 1), PairWave(f, tp, env, cfg, zc[n - 2], zc[n - 1]).value)
  }

  /** The candidate list grows in time order, every wave is well formed and
      exactly the kept pairs contribute a wave. */
  lemma {:induction false} CandidatesUpToFacts(f: seq<real>, tp: seq<nat>, env: Env, cfg: Config, zc: seq<nat>, n: nat)
    requires |tp| == |f| && zc == ZeroCrossings(f, cfg.polarity)
    requires 1 <= n <= |zc|
    ensures PrefixShape(f, tp, cfg, zc, n, CandidatesUpTo(f, tp, env, cfg, zc, n))
    ensures PrefixKept(f, tp, env, cfg, zc, n, CandidatesUpTo(f, tp, env, cfg, zc, n))
  {
    if n > 1 {
      CandidatesUpToFacts(f, tp, env, cfg, zc, n - 1);
      NeighboursConsecutive(f, cfg.polarity, n - 1);
      Step(f, tp, env, cfg, zc, n, CandidatesUpTo(f, tp, env, cfg, zc, n - 1));
    }
  }

  /** `push_back` of an optional candidate. */
  function Extend(ws: seq<Wave>, w: Option<Wave>): seq<Wave> {
    if w.Some? then ws + [w.value] else ws
  }

  /** One step of `CandidatesUpTo`. */
  lemma Step(f: seq<real>, tp: seq<nat>, env: Env, cfg: Config, zc: seq<nat>, n: nat, prev: seq<Wave>)
    requires |tp| == |f| && zc == ZeroCrossings(f, cfg.polarity)
    requires 2 <= n <= |zc|
    requires Consecutive(f, cfg.polarity, zc[n - 2], zc[n - 1])
    requires PrefixShape(f, tp, cfg, zc, n - 1, prev)
    requires PrefixKept(f, tp, env, cfg, zc, n - 1, prev)
    ensures PrefixShape(f, tp, cfg, zc, n, Extend(prev, PairWave(f, tp, env, cfg, zc[n - 2], zc[n - 1]).value))
    ensures PrefixKept(f, tp, env, cfg, zc, n, Extend(prev, PairWave(f, tp, env, cfg, zc[n - 2], zc[n - 1]).value))
  {
    var w := PairWave(f, tp, env, cfg, zc[n - 2], zc[n - 1]).value;
    var next := Extend(prev, w);
    StepShape(f, tp, cfg, zc, n, prev, w, next);
    StepKept(f, tp, env, cfg, zc, n, prev, w, next);
  }

  /** Earlier candidates start before the pair being processed. */
  lemma StartsBefore(f: seq<real>, tp: seq<nat>, cfg: Config, zc: seq<nat>, n: nat, prev: seq<Wave>)
    requires 2 <= n <= |zc|
    requires PrefixShape(f, tp, cfg, zc, n - 1, prev)
    ensures forall i :: 0 <= i < |prev| ==> prev[i].start < zc[n - 2]
  {
    forall i | 0 <= i < |prev| ensures prev[i].start < zc[n - 2] {
      AllWellFormedEach(f, tp, cfg, prev, i);
    }
  }

  /** Appending the candidate of the last pair keeps the shape. */
  lemma StepShape(f: seq<real>, tp: seq<nat>, cfg: Config, zc: seq<nat>, n: nat,
                  prev: seq<Wave>, w: Option<Wave>, next: seq<Wave>)
    requires 2 <= n <= |zc|
    requires forall k, l :: 0 <= k < l < |zc| ==> zc[k] < zc[l]
    requires PrefixShape(f, tp, cfg, zc, n - 1, prev)
    requires w.Some? ==> WellFormed(f, tp, cfg, w.value)
    requires w.Some? ==> w.value.start == zc[n - 2] && w.value.stop == zc[n - 1]
    requires next == if w.Some? then prev + [w.value] else prev
    ensures PrefixShape(f, tp, cfg, zc, n, next)
  {
    StartsBefore(f, tp, cfg, zc, n, prev);
    if w.Some? {
      assert next[..|next| - 1] == prev;
    }
  }

  /** Appending the candidate of the last pair keeps the start-set
      characterisation. */
  lemma StepKept(f: seq<real>, tp: seq<nat>, env: Env, cfg: Config, zc: seq<nat>, n: nat,
                 prev: seq<Wave>, w: Option<Wave>, next: seq<Wave>)
    requires 2 <= n <= |zc|
    requires forall k, l :: 0 <= k < l < |zc| ==> zc[k] < zc[l]
    requires PrefixShape(f, tp, cfg, zc, n - 1, prev)
    requires PrefixKept(f, tp, env, cfg, zc, n - 1, prev)
    requires w.None? <==> !Kept(f, tp, env, cfg, zc[n - 2], zc[n - 1])
    requires w.Some? ==> w.value.start == zc[n - 2]
    requires next == if w.Some? then prev + [w.value] else prev
    ensures PrefixKept(f, tp, env, cfg, zc, n, next)
  {
    var last := zc[n - 2];
    StartsBefore(f, tp, cfg, zc, n, prev);
    StartsNext(prev, w, next);
    forall k | 1 <= k < n - 1
      ensures zc[k - 1] in Starts(next) <==> Kept(f, tp, env, cfg, zc[k - 1], zc[k])
    {
      assert zc[k - 1] < last;
    }
  }

  /** The starts after appending an optional wave. */
  lemma StartsNext(prev: seq<Wave>, w: Option<Wave>, next: seq<Wave>)
    requires next == if w.Some? then prev + [w.value] else prev
    ensures Starts(next) == Starts(prev) + (if w.Some? then {w.value.start} else {})
  {
    if w.Some? {
      assert forall i :: 0 <= i < |prev| ==> next[i] == prev[i];
      assert next[|prev|] == w.value;
    }
  }

  /** All candidate waves of the trace: the `waves` vector before
      thresholding. Every pair of consecutive crossings yields a candidate
      exactly when it is kept, and candidates follow each other in time. */
  function Candidates(f: seq<real>, tp: seq<nat>, env: Env, cfg: Config): (r: seq<Wave>)
    requires |tp| == |f|
    ensures AllWellFormed(f, tp, cfg, r)
    ensures forall i, j :: 0 <= i < j < |r| ==> r[i].stop <= r[j].start
    ensures forall a, b :: Consecutive(f, cfg.polarity, a, b) ==> (a in Starts(r) <==> Kept(f, tp, env, cfg, a, b))
  {
    var zc := ZeroCrossings(f, cfg.polarity);
    if |zc| == 0 then []
    else
      var r := CandidatesUpTo(f, tp, env, cfg, zc, |zc|);
      CandidatesUpToFacts(f, tp, env, cfg, zc, |zc|);
      assert forall a, b :: Consecutive(f, cfg.polarity, a, b) ==> (a in Starts(r) <==> Kept(f, tp, env, cfg, a, b)) by {
        forall a, b | Consecutive(f, cfg.polarity, a, b)
          ensures a in Starts(r) <==> Kept(f, tp, env, cfg, a, b)
        {
          var k := ConsecutiveIsNeighbours(f, cfg.polarity, a, b);
        }
      }
      r
  }

  /** Conversely, two consecutive crossings sit next to each other in the
      crossing list. */
  lemma ConsecutiveIsNeighbours(f: seq<real>, pol: Polarity, a: nat, b: nat) returns (k: nat)
    requires Consecutive(f, pol, a, b)
    ensures 1 <= k < |ZeroCrossings(f, pol)| && ZeroCrossings(f, pol)[k - 1] == a && ZeroCrossings(f, pol)[k] == b
  {
    var zc := ZeroCrossings(f, pol);
    assert a in zc && b in zc;
    var ka :| 0 <= ka < |zc| && zc[ka] == a;
    var kb :| 0 <= kb < |zc| && zc[kb] == b;
    assert ka < kb;
    assert ka + 1 < |zc| && IsCrossing(f, pol, zc[ka + 1]);
    assert kb == ka + 1;
    k := kb;
  }
}
