/** `slow_waves_t::detect_slow_waves` as a whole (dsp/slow-waves.cpp:515-742):
    segmentation into candidates, the baseline over all candidates, the
    acceptance filter and the summary of the accepted waves. */
module Detector {
  import opened WaveTypes
  import opened Segmenter
  import opened Thresholder
  import opened WaveSummary

  /** Everything a detection run produces: `summary` as the program
      reports it, and `corrected` with the half-wave durations taken from
      the halves of the matching sign. */
  datatype Detection = Detection(candidates: seq<Wave>, baseline: Baseline, waves: seq<Wave>, summary: Summary, corrected: Summary)

  /** Filtering keeps every remaining wave well formed. */
  lemma {:induction false} SelectWellFormed(f: seq<real>, tp: seq<nat>, cfg: Config, b: Baseline, cands: seq<Wave>)
    requires AllWellFormed(f, tp, cfg, cands)
    ensures AllWellFormed(f, tp, cfg, Select(cfg, b, cands))
  {
    if |cands| > 0 {
      var init := cands[..|cands| - 1];
      SelectWellFormed(f, tp, cfg, b, init);
      var prev := Select(cfg, b, init);
      var w := cands[|cands| - 1];
      if Accepted(cfg, b, w) {
        assert (prev + [w])[..|prev|] == prev;
      }
    }
  }

  /** Filtering keeps waves in time order. */
  lemma SelectOrdered(cfg: Config, b: Baseline, cands: seq<Wave>)
    requires forall i, j :: 0 <= i < j < |cands| ==> cands[i].stop <= cands[j].start
    ensures var sw := Select(cfg, b, cands);
            forall i, j :: 0 <= i < j < |sw| ==> sw[i].stop <= sw[j].start
  {
    var idx := SelectIsSubsequence(cfg, b, cands);
  }

  /** A pair of consecutive crossings yields an accepted wave exactly when
      it yields a candidate (`kept`) and its measured wave passes the
      filter. */
  lemma AcceptedStart(f: seq<real>, tp: seq<nat>, cfg: Config, b: Baseline, cands: seq<Wave>, a: nat, c: nat, kept: bool)
    requires |tp| == |f| && Consecutive(f, cfg.polarity, a, c)
    requires AllWellFormed(f, tp, cfg, cands)
    requires a in Starts(cands) <==> kept
    ensures a in Starts(Select(cfg, b, cands)) <==> kept && Accepted(cfg, b, Measure(f, tp, cfg, a, c).value)
  {
    var m := Measure(f, tp, cfg, a, c).value;
    if a in Starts(Select(cfg, b, cands)) {
      SelectedIsMeasured(f, tp, cfg, b, cands, a, c);
    }
    if a in Starts(cands) && Accepted(cfg, b, m) {
      MeasuredIsSelected(f, tp, cfg, b, cands, a, c);
    }
  }

  /** An accepted wave starting at `a` is the candidate measured there. */
  lemma SelectedIsMeasured(f: seq<real>, tp: seq<nat>, cfg: Config, b: Baseline, cands: seq<Wave>, a: nat, c: nat)
    requires |tp| == |f| && Consecutive(f, cfg.polarity, a, c)
    requires AllWellFormed(f, tp, cfg, cands)
    requires a in Starts(Select(cfg, b, cands))
    ensures a in Starts(cands) && Accepted(cfg, b, Measure(f, tp, cfg, a, c).value)
  {
    var m := Measure(f, tp, cfg, a, c).value;
    var sw := Select(cfg, b, cands);
    var i := StartIndex(sw, a);
    var k :| 0 <= k < |cands| && cands[k] == sw[i];
    AllWellFormedEach(f, tp, cfg, cands, k);
    WellFormedDetermined(f, tp, cfg, sw[i], m);
  }

  /** Where a start occurs. */
  lemma StartIndex(ws: seq<Wave>, a: nat) returns (i: nat)
    requires a in Starts(ws)
    ensures i < |ws| && ws[i].start == a
  {
    i :| 0 <= i < |ws| && ws[i].start == a;
  }

  lemma StartOf(ws: seq<Wave>, w: Wave)
    requires w in ws
    ensures w.start in Starts(ws)
  {
    var i :| 0 <= i < |ws| && ws[i] == w;
  }

  /** A candidate starting at `a` whose measured wave passes is accepted. */
  lemma MeasuredIsSelected(f: seq<real>, tp: seq<nat>, cfg: Config, b: Baseline, cands: seq<Wave>, a: nat, c: nat)
    requires |tp| == |f| && Consecutive(f, cfg.polarity, a, c)
    requires AllWellFormed(f, tp, cfg, cands)
    requires a in Starts(cands) && Accepted(cfg, b, Measure(f, tp, cfg, a, c).value)
    ensures a in Starts(Select(cfg, b, cands))
  {
    var m := Measure(f, tp, cfg, a, c).value;
    var k := StartIndex(cands, a);
    AllWellFormedEach(f, tp, cfg, cands, k);
    WellFormedDetermined(f, tp, cfg, cands[k], m);
    var w := cands[k];
    assert w in cands && Accepted(cfg, b, w);
    StartOf(Select(cfg, b, cands), w);
  }

  /** The accepted waves of a run, with the facts `Detect` promises. */
  lemma SelectedFacts(f: seq<real>, tp: seq<nat>, env: Env, cfg: Config, b: Baseline)
    requires |tp| == |f|
    ensures var sw := Select(cfg, b, Candidates(f, tp, env, cfg));
            && AllWellFormed(f, tp, cfg, sw)
            && (forall i, j :: 0 <= i < j < |sw| ==> sw[i].stop <= sw[j].start)
            && forall a, c :: Consecutive(f, cfg.polarity, a, c) ==>
                 (a in Starts(sw) <==> Kept(f, tp, env, cfg, a, c) && Accepted(cfg, b, Measure(f, tp, cfg, a, c).value))
  {
    var cands := Candidates(f, tp, env, cfg);
    var sw := Select(cfg, b, cands);
    SelectWellFormed(f, tp, cfg, b, cands);
    SelectOrdered(cfg, b, cands);
    forall a, c | Consecutive(f, cfg.polarity, a, c)
      ensures a in Starts(sw) <==> Kept(f, tp, env, cfg, a, c) && Accepted(cfg, b, Measure(f, tp, cfg, a, c).value)
    {
      AcceptedStart(f, tp, cfg, b, cands, a, c, Kept(f, tp, env, cfg, a, c));
    }
  }

  /** One detection run over the band-passed trace `f` with timepoints
      `tp`. The accepted waves are well formed, follow each other in time,
      and are exactly those from kept pairs of consecutive crossings whose
      measured wave passes the thresholds derived from all candidates; the
      count returned by the program is `|d.waves|`. The reported summary
      is the program's; under `neg2pos` its two half-wave durations are
      swapped, which `d.corrected` puts right. */
  function Detect(f: seq<real>, tp: seq<nat>, env: Env, cfg: Config): (d: Detection)
    requires |tp| == |f|
    ensures AllWellFormed(f, tp, cfg, d.waves)
    ensures forall i, j :: 0 <= i < j < |d.waves| ==> d.waves[i].stop <= d.waves[j].start
    ensures d.candidates == Candidates(f, tp, env, cfg)
    ensures d.baseline == ComputeBaseline(env, cfg, d.candidates)
    ensures forall a, c :: Consecutive(f, cfg.polarity, a, c) ==>
              (a in Starts(d.waves) <==> Kept(f, tp, env, cfg, a, c) && Accepted(cfg, d.baseline, Measure(f, tp, cfg, a, c).value))
    ensures d.summary == SummarizeAsWritten(env, d.waves) && d.summary.count == |d.waves|
    ensures d.corrected == Summarize(env, cfg.polarity, d.waves)
    ensures cfg.polarity == PosToNeg ==> d.corrected == d.summary
  {
    var cands := Candidates(f, tp, env, cfg);
    var b := ComputeBaseline(env, cfg, cands);
    SelectedFacts(f, tp, env, cfg, b);
    var sw := Select(cfg, b, cands);
    Detection(cands, b, sw, SummarizeAsWritten(env, sw), Summarize(env, cfg.polarity, sw))
  }
}
