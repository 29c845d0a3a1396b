/** The accumulation of per-wave statistics over the accepted waves and the
    whole of `detect_slow_waves` (dsp/slow-waves.cpp:515-742). */
module WaveSummary {
  import opened WaveTypes
  import opened Segmenter
  import opened Thresholder

  /** Mean and median of one accumulator. */
  datatype Stat = Stat(mean: real, median: real)

  /** What an empty accumulator reports. */
  const NoStat := Stat(0.0, 0.0)

  /** Both statistics of an accumulator, or zero for an empty one. */
  function Summarise(env: Env, acc: seq<real>): (st: Stat)
    ensures |acc| == 0 ==> st == NoStat
    ensures |acc| > 0 ==> st.mean == env.mean(acc) && st.median == env.median(acc)
  {
    if |acc| > 0 then Stat(env.mean(acc), env.median(acc)) else Stat(0.0, 0.0)
  }

  /** Whole-wave duration in ticks, up to but not including the stop tick. */
  function Duration(w: Wave): real {
    (w.stopTp - w.startTp) as real
  }

  /** Duration of the half before the internal crossing. */
  function FirstHalfDuration(w: Wave): real {
    (w.midTp - w.startTp) as real
  }

  /** Duration of the half after the internal crossing. */
  function SecondHalfDuration(w: Wave): real {
    (w.stopTp - w.midTp) as real
  }

  /** The slopes of one kind, in wave order, leaving out every slope that
      is zero (a slope the wave does not report). */
  function NonZeroSlopes(env: Env, id: SlopeId, ws: seq<Wave>): (r: seq<real>)
    ensures |r| <= |ws|
    ensures forall k :: 0 <= k < |r| ==> r[k] != 0.0 && exists i :: 0 <= i < |ws| && r[k] == env.slope(ws[i], id)
    ensures forall i :: 0 <= i < |ws| && env.slope(ws[i], id) != 0.0 ==> env.slope(ws[i], id) in r
  {
    if |ws| == 0 then []
    else
      var prev := NonZeroSlopes(env, id, ws[..|ws| - 1]);
      var s := env.slope(ws[|ws| - 1], id);
      assert forall i :: 0 <= i < |ws| - 1 ==> ws[..|ws| - 1][i] == ws[i];
      if s != 0.0 then prev + [s] else prev
  }

  /** `idx` embeds the accumulator `r` into the waves: strictly increasing
      indices of waves whose slope is the accumulated one, covering every
      wave with a non-zero slope. */
  predicate SlopesAt(env: Env, id: SlopeId, ws: seq<Wave>, r: seq<real>, idx: seq<nat>) {
    && |idx| == |r|
    && (forall k :: 0 <= k < |idx| ==> idx[k] < |ws| && r[k] == env.slope(ws[idx[k]], id))
    && (forall k, l :: 0 <= k < l < |idx| ==> idx[k] < idx[l])
    && (forall i :: 0 <= i < |ws| && env.slope(ws[i], id) != 0.0 ==> i in idx)
  }

  /** Each non-zero slope enters its accumulator exactly once, in wave
      order. */
  lemma {:induction false} NonZeroSlopesInOrder(env: Env, id: SlopeId, ws: seq<Wave>) returns (idx: seq<nat>)
    ensures SlopesAt(env, id, ws, NonZeroSlopes(env, id, ws), idx)
  {
    if |ws| == 0 {
      idx := [];
    } else {
      var init := ws[..|ws| - 1];
      var prev := NonZeroSlopesInOrder(env, id, init);
      idx := ExtendOrder(env, id, ws, NonZeroSlopes(env, id, init), prev);
    }
  }

  /** The induction step of `NonZeroSlopesInOrder`: one more wave. */
  lemma ExtendOrder(env: Env, id: SlopeId, ws: seq<Wave>, r0: seq<real>, prev: seq<nat>) returns (idx: seq<nat>)
    requires |ws| > 0 && SlopesAt(env, id, ws[..|ws| - 1], r0, prev)
    ensures var s := env.slope(ws[|ws| - 1], id);
            SlopesAt(env, id, ws, if s != 0.0 then r0 + [s] else r0, idx)
  {
    var n := |ws| - 1;
    var init := ws[..n];
    forall k | 0 <= k < |prev| ensures prev[k] < n && r0[k] == env.slope(ws[prev[k]], id) {
      assert init[prev[k]] == ws[prev[k]];
    }
    forall i | 0 <= i < n && env.slope(ws[i], id) != 0.0 ensures i in prev {
      assert init[i] == ws[i];
    }
    if env.slope(ws[n], id) != 0.0 {
      idx := ExtendNonZero(env, id, ws, r0, prev);
    } else {
      idx := prev;
    }
  }

  /** The step for a wave whose slope is non-zero: its index is appended. */
  lemma ExtendNonZero(env: Env, id: SlopeId, ws: seq<Wave>, r0: seq<real>, prev: seq<nat>) returns (idx: seq<nat>)
    requires |ws| > 0 && |prev| == |r0|
    requires forall k :: 0 <= k < |prev| ==> prev[k] < |ws| - 1 && r0[k] == env.slope(ws[prev[k]], id)
    requires forall k, l :: 0 <= k < l < |prev| ==> prev[k] < prev[l]
    requires forall i :: 0 <= i < |ws| - 1 && env.slope(ws[i], id) != 0.0 ==> i in prev
    ensures SlopesAt(env, id, ws, r0 + [env.slope(ws[|ws| - 1], id)], idx)
  {
    var n := |ws| - 1;
    var r := r0 + [env.slope(ws[n], id)];
    idx := prev + [n];
    forall k | 0 <= k < |idx| ensures idx[k] < |ws| && r[k] == env.slope(ws[idx[k]], id) {
      if k < |prev| {
        assert idx[k] == prev[k] && r[k] == r0[k];
      }
    }
    forall k, l | 0 <= k < l < |idx| ensures idx[k] < idx[l] {
      assert idx[k] == prev[k];
      if l < |prev| {
        assert idx[l] == prev[l];
      }
    }
    forall i | 0 <= i < |ws| && env.slope(ws[i], id) != 0.0 ensures i in idx {
      if i < n {
        var k :| 0 <= k < |prev| && prev[k] == i;
        assert idx[k] == i;
      } else {
        assert idx[|prev|] == i;
      }
    }
  }

  /** The figures reported for the accepted waves. */
  datatype Summary = Summary(
    count: nat,
    x: Stat, yx: Stat,
    duration: Stat, negDuration: Stat, posDuration: Stat,
    n1: Stat, n2: Stat, p1: Stat, p2: Stat)

  /** The half-wave in which the signal is negative: the first half by
      default, the second half under `neg2pos`. */
  function NegativeHalf(pol: Polarity, w: Wave): real {
    match pol
    case PosToNeg => FirstHalfDuration(w)
    case NegToPos => SecondHalfDuration(w)
  }

  function PositiveHalf(pol: Polarity, w: Wave): real {
    match pol
    case PosToNeg => SecondHalfDuration(w)
    case NegToPos => FirstHalfDuration(w)
  }

  /** What the program reports when no wave is accepted. */
  const NoWaves := Summary(0, NoStat, NoStat, NoStat, NoStat, NoStat, NoStat, NoStat, NoStat, NoStat)

  function SummaryWith(env: Env, ws: seq<Wave>, neg: Wave -> real, pos: Wave -> real): (s: Summary)
    ensures s.count == |ws|
  {
    Summary(|ws|,
      Summarise(env, DownAmps(ws)), Summarise(env, P2ps(ws)),
      Summarise(env, Column(ws, Duration)),
      Summarise(env, Column(ws, neg)),
      Summarise(env, Column(ws, pos)),
      Summarise(env, NonZeroSlopes(env, Neg1, ws)), Summarise(env, NonZeroSlopes(env, Neg2, ws)),
      Summarise(env, NonZeroSlopes(env, Pos1, ws)), Summarise(env, NonZeroSlopes(env, Pos2, ws)))
  }

  /** The summary as the program computes it: the "negative" duration is
      always `zero_crossing_tp - start`, whatever the polarity. */
  function SummarizeAsWritten(env: Env, ws: seq<Wave>): (s: Summary)
    ensures s.count == |ws|
    ensures |ws| == 0 ==> s == NoWaves
    ensures s.x == Summarise(env, DownAmps(ws)) && s.yx == Summarise(env, P2ps(ws))
    ensures s.duration == Summarise(env, Column(ws, Duration))
    ensures s.negDuration == Summarise(env, Column(ws, FirstHalfDuration))
    ensures s.posDuration == Summarise(env, Column(ws, SecondHalfDuration))
    ensures s.n1 == Summarise(env, NonZeroSlopes(env, Neg1, ws)) && s.n2 == Summarise(env, NonZeroSlopes(env, Neg2, ws))
    ensures s.p1 == Summarise(env, NonZeroSlopes(env, Pos1, ws)) && s.p2 == Summarise(env, NonZeroSlopes(env, Pos2, ws))
  {
    SummaryWith(env, ws, FirstHalfDuration, SecondHalfDuration)
  }

  /** The summary with the negative and positive durations taken from the
      half-waves of the matching sign. */
  function Summarize(env: Env, pol: Polarity, ws: seq<Wave>): (s: Summary)
    ensures s.count == |ws|
    ensures |ws| == 0 ==> s == NoWaves
    ensures pol == PosToNeg ==> s == SummarizeAsWritten(env, ws)
    ensures s.negDuration == Summarise(env, Column(ws, (w: Wave) => NegativeHalf(pol, w)))
    ensures s.posDuration == Summarise(env, Column(ws, (w: Wave) => PositiveHalf(pol, w)))
  {
    var neg := (w: Wave) => NegativeHalf(pol, w);
    var pos := (w: Wave) => PositiveHalf(pol, w);
    assert pol == PosToNeg ==> Column(ws, neg) == Column(ws, FirstHalfDuration) && Column(ws, pos) == Column(ws, SecondHalfDuration);
    SummaryWith(env, ws, neg, pos)
  }

  /** The two halves of a wave split its duration, and neither is negative,
      so the unsigned tick differences of the program never wrap. */
  lemma HalvesSplitDuration(f: seq<real>, tp: seq<nat>, cfg: Config, w: Wave)
    requires WellFormed(f, tp, cfg, w) && Monotone(tp)
    ensures 0.0 <= FirstHalfDuration(w) && 0.0 <= SecondHalfDuration(w)
    ensures FirstHalfDuration(w) + SecondHalfDuration(w) == Duration(w)
  {
    assert w.start < w.mid < w.stop;
  }

  /** Where the internal crossing splits a wave: the leading sign holds
      before it and the trailing sign from it up to the stop. */
  lemma HalfSigns(f: seq<real>, tp: seq<nat>, cfg: Config, w: Wave)
    requires WellFormed(f, tp, cfg, w)
    ensures w.start < w.mid < w.stop
    ensures forall k :: w.start <= k < w.mid ==> Leading(cfg.polarity, f[k])
    ensures forall k :: w.mid <= k < w.stop ==> !Leading(cfg.polarity, f[k])
  {
    assert w.start < w.mid < w.stop;
    MidCrossingUnique(f, cfg.polarity, w.start, w.stop, w.mid);
    forall k | w.mid <= k < w.stop ensures !Leading(cfg.polarity, f[k]) {
      TrailingPersists(f, cfg.polarity, w.start, w.stop, w.mid, k);
    }
  }

  /** The corrected negative duration is the length of the half-wave that
      holds the negative peak and in which every sample is negative. */
  lemma NegativeHalfIsNegative(f: seq<real>, tp: seq<nat>, cfg: Config, w: Wave)
    requires WellFormed(f, tp, cfg, w)
    ensures cfg.polarity == PosToNeg ==>
              && w.start <= w.downSp < w.mid
              && (forall k :: w.start <= k < w.mid ==> f[k] < 0.0)
              && NegativeHalf(cfg.polarity, w) == (tp[w.mid] as int - tp[w.start] as int) as real
    ensures cfg.polarity == NegToPos ==>
              && w.mid <= w.downSp < w.stop
              && (forall k :: w.mid <= k < w.stop ==> f[k] < 0.0)
              && NegativeHalf(cfg.polarity, w) == (tp[w.stop] as int - tp[w.mid] as int) as real
  {
    HalfSigns(f, tp, cfg, w);
    assert w.start <= w.downSp < w.stop;
  }

  /** As written, under `neg2pos` the reported negative duration measures
      the half-wave in which no sample is negative, and the reported
      positive duration the one holding the negative peak: the two
      figures are swapped. */
  lemma AsWrittenSwapsHalvesUnderNeg2Pos(env: Env, f: seq<real>, tp: seq<nat>, cfg: Config, w: Wave)
    requires WellFormed(f, tp, cfg, w) && cfg.polarity == NegToPos
    ensures forall k :: w.start <= k < w.mid ==> f[k] >= 0.0
    ensures SummarizeAsWritten(env, [w]).negDuration == Summarize(env, NegToPos, [w]).posDuration
    ensures SummarizeAsWritten(env, [w]).posDuration == Summarize(env, NegToPos, [w]).negDuration
  {
    HalfSigns(f, tp, cfg, w);
    var fh := Column([w], FirstHalfDuration);
    assert fh == Column([w], (v: Wave) => PositiveHalf(NegToPos, v));
    assert Column([w], SecondHalfDuration) == Column([w], (v: Wave) => NegativeHalf(NegToPos, v));
  }
}
