/** The two-pass acceptance filter of `detect_slow_waves`
    (dsp/slow-waves.cpp:646-713): a baseline (mean or median) over all
    candidates, relative thresholds derived from it, and the per-candidate
    relative and absolute checks. */
module Thresholder {
  import opened WaveTypes
  import opened Segmenter

  /** `avg_x` and `avg_yminusx` as computed before thresholding: the central
      tendency of the candidates' negative-peak and peak-to-peak amplitudes. */
  datatype Baseline = Baseline(x: real, yx: real)

  /** One value per wave, in order. */
  function Column(ws: seq<Wave>, g: Wave -> real): (r: seq<real>)
    ensures |r| == |ws| && forall i :: 0 <= i < |ws| ==> r[i] == g(ws[i])
  {
    if |ws| == 0 then [] else Column(ws[..|ws| - 1], g) + [g(ws[|ws| - 1])]
  }

  /** The negative-peak amplitudes of a list of waves (`tmp_x`, `acc_x`). */
  function DownAmps(ws: seq<Wave>): seq<real> {
    Column(ws, (w: Wave) => w.down)
  }

  /** The peak-to-peak amplitudes of a list of waves (`tmp_yminusx`, `acc_yminusx`). */
  function P2ps(ws: seq<Wave>): seq<real> {
    Column(ws, P2p)
  }

  /** Mean when `sw-mean` is set, median otherwise. */
  function Central(env: Env, useMean: bool, s: seq<real>): real {
    if useMean then env.mean(s) else env.median(s)
  }

  function ComputeBaseline(env: Env, cfg: Config, cands: seq<Wave>): Baseline {
    Baseline(Central(env, cfg.useMean, DownAmps(cands)), Central(env, cfg.useMean, P2ps(cands)))
  }

  /** The acceptance test as the program writes it: start accepted, then
      reject on each enabled check that fails. */
  predicate Accepted(cfg: Config, b: Baseline, w: Wave) {
    var thX := b.x * cfg.thr;
    var thYX := b.yx * cfg.thr;
    && !(cfg.thr > 0.0 && w.down > thX)
    && !(cfg.thr > 0.0 && P2p(w) < thYX)
    && !(cfg.uvNeg < 0.0 && w.down > cfg.uvNeg)
    && !(cfg.uvP2p > 0.0 && P2p(w) < cfg.uvP2p)
  }

  /** The accepted candidates, in candidate order (the vector `sw`). */
  function Select(cfg: Config, b: Baseline, cands: seq<Wave>): (sw: seq<Wave>)
    ensures |sw| <= |cands|
    ensures forall i :: 0 <= i < |sw| ==> Accepted(cfg, b, sw[i]) && sw[i] in cands
    ensures forall w :: w in cands && Accepted(cfg, b, w) ==> w in sw
  {
    if |cands| == 0 then []
    else
      var prev := Select(cfg, b, cands[..|cands| - 1]);
      var w := cands[|cands| - 1];
      assert cands == cands[..|cands| - 1] + [w];
      if Accepted(cfg, b, w) then prev + [w] else prev
  }

  /** `a` is `b` with some elements left out, the others kept in order:
      `idx` says where each element of `a` sits in `b`. */
  ghost predicate EmbeddedBy<T>(a: seq<T>, b: seq<T>, idx: seq<nat>) {
    && |idx| == |a|
    && (forall i :: 0 <= i < |idx| ==> idx[i] < |b| && a[i] == b[idx[i]])
    && (forall i, j :: 0 <= i < j < |idx| ==> idx[i] < idx[j])
  }

  /** The accepted waves are an order-preserving subsequence of the
      candidates. */
  lemma {:induction false} SelectIsSubsequence(cfg: Config, b: Baseline, cands: seq<Wave>) returns (idx: seq<nat>)
    ensures EmbeddedBy(Select(cfg, b, cands), cands, idx)
  {
    if |cands| == 0 {
      idx := [];
    } else {
      var init := cands[..|cands| - 1];
      var prev := SelectIsSubsequence(cfg, b, init);
      if Accepted(cfg, b, cands[|cands| - 1]) {
        idx := prev + [|cands| - 1];
      } else {
        idx := prev;
      }
    }
  }

  /** When every candidate that passes the second test also passes the
      first, the second selection is no longer than the first and each of
      its waves is also in the first. */
  lemma {:induction false} StricterSelectsSubsequence(cfg1: Config, b1: Baseline, cfg2: Config, b2: Baseline, cands: seq<Wave>)
    requires forall w :: w in cands && Accepted(cfg2, b2, w) ==> Accepted(cfg1, b1, w)
    ensures |Select(cfg2, b2, cands)| <= |Select(cfg1, b1, cands)|
    ensures forall w :: w in Select(cfg2, b2, cands) ==> w in Select(cfg1, b1, cands)
  {
    if |cands| > 0 {
      var init := cands[..|cands| - 1];
      forall w | w in init && Accepted(cfg2, b2, w) ensures Accepted(cfg1, b1, w) {
        assert w in cands;
      }
      StricterSelectsSubsequence(cfg1, b1, cfg2, b2, init);
    }
  }

  /** Raising the relative threshold `thr` with the baseline fixed never
      increases the number of accepted waves, provided the baseline has the
      signs every candidate's amplitudes have (negative peak below zero,
      peak-to-peak at least zero). */
  lemma ThresholdMonotone(cfg: Config, thr1: real, thr2: real, b: Baseline, cands: seq<Wave>)
    requires thr1 <= thr2
    requires b.x <= 0.0 <= b.yx
    ensures |Select(cfg.(thr := thr2), b, cands)| <= |Select(cfg.(thr := thr1), b, cands)|
    ensures forall w :: w in Select(cfg.(thr := thr2), b, cands) ==> w in Select(cfg.(thr := thr1), b, cands)
  {
    var c1, c2 := cfg.(thr := thr1), cfg.(thr := thr2);
    forall w | w in cands && Accepted(c2, b, w) ensures Accepted(c1, b, w) {
      if thr1 > 0.0 {
        assert b.x * thr2 <= b.x * thr1 by { MulMonotone(-b.x, thr1, thr2); }
        assert b.yx * thr1 <= b.yx * thr2 by { MulMonotone(b.yx, thr1, thr2); }
      }
    }
    StricterSelectsSubsequence(c1, b, c2, b, cands);
  }

  lemma MulMonotone(c: real, s: real, t: real)
    requires c >= 0.0 && s <= t
    ensures c * s <= c * t
  {
    assert c * t - c * s == c * (t - s);
  }

  /** Every candidate has a negative down peak and a positive peak-to-peak
      amplitude, so a baseline statistic that stays within the range of its
      inputs satisfies the sign condition of `ThresholdMonotone`. */
  lemma CandidateSigns(f: seq<real>, tp: seq<nat>, cfg: Config, cands: seq<Wave>)
    requires AllWellFormed(f, tp, cfg, cands)
    ensures forall i :: 0 <= i < |cands| ==> DownAmps(cands)[i] < 0.0 && P2ps(cands)[i] > 0.0
  {
    forall i | 0 <= i < |cands| ensures DownAmps(cands)[i] < 0.0 && P2ps(cands)[i] > 0.0 {
      AllWellFormedEach(f, tp, cfg, cands, i);
    }
  }
}
