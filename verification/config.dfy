/** The parameter checks of the `slow_waves_t` constructor
    (dsp/slow-waves.cpp:126-154): defaults, the two sign checks on the
    absolute bounds, the flags and the wave-type precedence. String to
    number conversion (`Helper::str2dbl`) is not part of this model and is
    a parameter. */
module DetectorConfig {
  import opened Wrappers
  import opened WaveTypes
  import opened ParamStore

  /** `param_t::requires_dbl`. */
  function RequiresReal(p: Params, key: string, toReal: string -> Option<real>): (r: Result<real, Halt>)
    ensures r.Failure? <==> !Has(p, key) || toReal(Value(p, key)).None?
    ensures r.Success? ==> Some(r.value) == toReal(Value(p, key))
  {
    if !Has(p, key) then Failure(MissingParameter(key))
    else match toReal(Value(p, key))
      case None => Failure(NotNumeric(key))
      case Some(x) => Success(x)
  }

  /** `param.has(key) ? param.requires_dbl(key) : dflt`. */
  function Setting(p: Params, key: string, dflt: real, toReal: string -> Option<real>): (r: Result<real, Halt>)
    ensures !Has(p, key) ==> r == Success(dflt)
    ensures Has(p, key) ==> r == RequiresReal(p, key, toReal)
  {
    if Has(p, key) then RequiresReal(p, key, toReal) else Success(dflt)
  }

  /** `half-wave` wins over `negative-half-wave`, which wins over
      `positive-half-wave`; full waves otherwise. */
  function KindOf(p: Params): (k: WaveKind)
    ensures k == Half <==> Has(p, "half-wave")
    ensures k == NegativeHalf <==> !Has(p, "half-wave") && Has(p, "negative-half-wave")
    ensures k == PositiveHalf <==> !Has(p, "half-wave") && !Has(p, "negative-half-wave") && Has(p, "positive-half-wave")
  {
    if Has(p, "half-wave") then Half
    else if Has(p, "negative-half-wave") then NegativeHalf
    else if Has(p, "positive-half-wave") then PositiveHalf
    else Full
  }

  /** Every numeric option that is given converts to a number (the nine
      options the constructor reads, in its order). */
  predicate AllNumeric(p: Params, toReal: string -> Option<real>) {
    && Setting(p, "mag", 0.0, toReal).Success?
    && Setting(p, "f-lwr", 0.0, toReal).Success?
    && Setting(p, "f-upr", 0.0, toReal).Success?
    && Setting(p, "t-lwr", 0.0, toReal).Success?
    && Setting(p, "t-upr", 0.0, toReal).Success?
    && Setting(p, "uV-neg", 0.0, toReal).Success?
    && Setting(p, "uV-p2p", 0.0, toReal).Success?
    && Setting(p, "t-neg-lwr", 0.0, toReal).Success?
    && Setting(p, "t-neg-upr", 0.0, toReal).Success?
  }

  /** The detection settings of one `SW` command. */
  function ConfigFromParams(p: Params, toReal: string -> Option<real>): (r: Result<Config, Halt>)
    ensures r.Success? <==>
              && AllNumeric(p, toReal)
              && Setting(p, "uV-neg", 0.0, toReal).value <= 0.0
              && Setting(p, "uV-p2p", 0.0, toReal).value >= 0.0
    ensures r.Success? ==> r.value.uvNeg <= 0.0 && r.value.uvP2p >= 0.0
    ensures r.Success? ==> r.value.thr == Setting(p, "mag", 0.0, toReal).value
    ensures r.Success? ==> r.value.fLwr == Setting(p, "f-lwr", 0.2, toReal).value
    ensures r.Success? ==> r.value.fUpr == Setting(p, "f-upr", 4.5, toReal).value
    ensures r.Success? ==> r.value.tLwr == Setting(p, "t-lwr", 0.0, toReal).value
    ensures r.Success? ==> r.value.tUpr == Setting(p, "t-upr", 10.0, toReal).value
    ensures r.Success? ==> r.value.uvNeg == Setting(p, "uV-neg", 0.0, toReal).value
    ensures r.Success? ==> r.value.uvP2p == Setting(p, "uV-p2p", 0.0, toReal).value
    ensures r.Success? ==> r.value.tNegLwr == Setting(p, "t-neg-lwr", 0.0, toReal).value
    ensures r.Success? ==> r.value.tNegUpr == Setting(p, "t-neg-upr", 10.0, toReal).value
    ensures r.Success? ==> r.value.kind == KindOf(p)
    ensures r.Success? ==> (r.value.polarity == NegToPos <==> Has(p, "neg2pos"))
    ensures r.Success? ==> (r.value.useMean <==> Has(p, "sw-mean"))
  {
    var thr :- Setting(p, "mag", 0.0, toReal);
    var fLwr :- Setting(p, "f-lwr", 0.2, toReal);
    var fUpr :- Setting(p, "f-upr", 4.5, toReal);
    var tLwr :- Setting(p, "t-lwr", 0.0, toReal);
    var tUpr :- Setting(p, "t-upr", 10.0, toReal);
    var uvNeg :- Setting(p, "uV-neg", 0.0, toReal);
    if uvNeg > 0.0 then Failure(PositiveNegBound)
    else
      var uvP2p :- Setting(p, "uV-p2p", 0.0, toReal);
      if uvP2p < 0.0 then Failure(NegativeP2pBound)
      else
        var tNegLwr :- Setting(p, "t-neg-lwr", 0.0, toReal);
        var tNegUpr :- Setting(p, "t-neg-upr", 10.0, toReal);
        var pol := if Has(p, "neg2pos") then NegToPos else PosToNeg;
        Success(Config(thr, Has(p, "sw-mean"), uvNeg, uvP2p, fLwr, fUpr, tLwr, tUpr, tNegLwr, tNegUpr, pol, KindOf(p)))
  }

  /** With no options at all, the defaults: no relative or absolute
      amplitude threshold, band 0.2-4.5 Hz, no duration filters (bounds 0
      and 10 s), positive-to-negative crossings, median baseline, full
      waves. */
  lemma Defaults(toReal: string -> Option<real>)
    ensures ConfigFromParams(EmptyParams(), toReal)
              == Success(Config(0.0, false, 0.0, 0.0, 0.2, 4.5, 0.0, 10.0, 0.0, 10.0, PosToNeg, Full))
  {
  }

  /** A positive negative-peak bound halts, whatever follows it, once the
      options read before it are numeric. */
  lemma PositiveNegBoundHalts(p: Params, toReal: string -> Option<real>)
    requires Setting(p, "mag", 0.0, toReal).Success? && Setting(p, "f-lwr", 0.0, toReal).Success?
    requires Setting(p, "f-upr", 0.0, toReal).Success? && Setting(p, "t-lwr", 0.0, toReal).Success?
    requires Setting(p, "t-upr", 0.0, toReal).Success?
    requires Has(p, "uV-neg") && toReal(Value(p, "uV-neg")).Some?
    requires toReal(Value(p, "uV-neg")).value > 0.0
    ensures ConfigFromParams(p, toReal) == Failure(PositiveNegBound)
  {
  }
}
