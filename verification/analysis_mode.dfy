/** The `mode` parameter of the operator and the analysis mode it selects. */
module AnalysisMode {
  import opened Wrappers

  /** How the spectral analysis tells true shadow from false candidates. */
  datatype Mode = LandWater | MultiBand | SingleBand

  /** The message of the `OperatorException` thrown for any other parameter value. */
  const INVALID_MODE_MESSAGE: string := "Invalid analysis mode. Must be LandWater, MultiBand or SingleBand."

  /** The parameter value that selects a mode, as listed in the parameter's value set. */
  function Name(m: Mode): string {
    match m
    case LandWater => "LandWater"
    case MultiBand => "MultiBand"
    case SingleBand => "SingleBand"
  }

  /** The `switch (mode)` of `initialize`: one of the three names, or the exception. */
  function ParseMode(s: string): (r: Result<Mode, string>)
    ensures r.Success? <==> s in {"LandWater", "MultiBand", "SingleBand"}
    ensures r.Success? ==> Name(r.value) == s
    ensures r.Failure? ==> r.error == INVALID_MODE_MESSAGE
  {
    if s == "LandWater" then Success(LandWater)
    else if s == "MultiBand" then Success(MultiBand)
    else if s == "SingleBand" then Success(SingleBand)
    else Failure(INVALID_MODE_MESSAGE)
  }

  /** Every mode is selected by its own name, and by no other string. */
  lemma ParseName(m: Mode, s: string)
    ensures ParseMode(Name(m)) == Success(m)
    ensures ParseMode(s) == Success(m) <==> s == Name(m)
  {
  }
}
