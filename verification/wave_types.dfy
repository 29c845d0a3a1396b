/** The entities of the slow-wave engine (dsp/slow-waves.cpp) and the
    collaborators it consumes, which the model receives as parameters. */
module WaveTypes {

  /** Which zero crossings bound a wave: positive-to-negative by default,
      negative-to-positive under the `neg2pos` option. */
  datatype Polarity = PosToNeg | NegToPos

  /** `slow_wave_type`: fixed for a whole detection run. */
  datatype WaveKind = Full | Half | NegativeHalf | PositiveHalf

  /** The four half-wave slopes a wave reports. */
  datatype SlopeId = Neg1 | Neg2 | Pos1 | Pos2

  /** Detection settings, as read by the `slow_waves_t` constructor. */
  datatype Config = Config(
    thr: real,          // relative threshold multiplier; only used when > 0
    useMean: bool,      // baseline statistic: mean instead of median
    uvNeg: real,        // absolute negative-peak bound; only used when < 0
    uvP2p: real,        // absolute peak-to-peak bound; only used when > 0
    fLwr: real,         // band edges, passed through to the band-pass filter
    fUpr: real,
    tLwr: real,         // whole-wave duration bounds; only used when tLwr > 0
    tUpr: real,
    tNegLwr: real,      // negative half-wave duration bounds; only used when tNegLwr > 0
    tNegUpr: real,
    polarity: Polarity,
    kind: WaveKind)

  /** One slow wave (`slow_wave_t`). The sample interval is `[start, stop]`,
      bounded by two consecutive crossings; `mid` is the internal crossing of
      the opposite polarity. Times are timepoint ticks. */
  datatype Wave = Wave(
    kind: WaveKind,
    start: nat, stop: nat,
    startTp: nat, stopTp: nat,
    down: real, downSp: nat, downTp: nat,
    up: real, upSp: nat, upTp: nat,
    mid: nat, midTp: nat)

  /** Peak-to-peak amplitude (`slow_wave_t::amplitude`). */
  function P2p(w: Wave): real {
    w.up - w.down
  }

  /** The collaborators the engine calls but whose code is not part of this
      model: the discontinuity query of the timeline, the duration of a
      tick interval (`interval_t::duration_sec`, given start and inclusive
      stop ticks), the mean and median of `MiscMath`, and the slope accessors
      of `slow_wave_t`. */
  datatype Env = Env(
    disc: (nat, nat) -> bool,
    secs: (int, int) -> real,
    mean: seq<real> -> real,
    median: seq<real> -> real,
    slope: (Wave, SlopeId) -> real)

  /** Reasons for which the engine halts. */
  datatype Halt =
    | PositiveNegBound        // "uV-neg should be negative"
    | NegativeP2pBound        // "uV-p2p should be positive"
    | NoMidCrossing           // "problem": no internal crossing found
    | UnknownAnchor           // time-locked averaging with an unknown anchor code
    | BadWindowLength         // a window of negative length cannot be allocated
    | MissingParameter(key: string)
    | NotNumeric(key: string)

  /** Timepoints never decrease. */
  predicate Monotone(tp: seq<nat>) {
    forall i, j :: 0 <= i <= j < |tp| ==> tp[i] <= tp[j]
  }
}
