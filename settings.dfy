/** The command-line settings: `invalid_inputs?` (lines 322-339), which
    checks the options before an exporter is built, and the level test of
    `log` (lines 314-320).  Ruby symbols are written as strings without
    the colon. */
module Settings {
  import opened Wrappers
  import opened Naming

  /** `LOG_LEVELS` (line 59): the rank of each known level. */
  function LogRank(level: string): Option<nat> {
    if level == "standard" then Some(1)
    else if level == "verbose" then Some(2)
    else None
  }

  /** `OUTPUT_TYPES` (line 60). */
  const OutputTypes: seq<string> := ["slugified", "id_only"]

  /** The output type an accepted `:output_type` names. */
  function ParseOutputType(s: string): (r: Option<OutputType>)
    ensures r.Some? <==> s in OutputTypes
    ensures r == Some(Slugified) <==> s == "slugified"
    ensures r == Some(IdOnly) <==> s == "id_only"
  {
    if s == "slugified" then Some(Slugified)
    else if s == "id_only" then Some(IdOnly)
    else None
  }

  /** The options hash; a missing key is `None`. */
  datatype Options = Options(
    email: Option<string>,
    password: Option<string>,
    subdomain: Option<string>,
    logLevel: Option<string>,
    outputType: Option<string>)

  /** The values of `REQUIRED_INPUTS` (line 61), in order. */
  function Required(o: Options): seq<Option<string>> {
    [o.email, o.password, o.subdomain]
  }

  /** Which message `invalid_inputs?` prints, or that it prints none. */
  datatype InputCheck = Accepted | MissingRequired | UnknownLogLevel | UnknownOutputType

  /** The three checks of `invalid_inputs?`, in their order. */
  function CheckInputs(o: Options): (r: InputCheck)
    ensures r == MissingRequired <==> exists i :: 0 <= i < |Required(o)| && Required(o)[i].None?
    ensures r == UnknownLogLevel <==>
              o.email.Some? && o.password.Some? && o.subdomain.Some? &&
              (o.logLevel.None? || LogRank(o.logLevel.value).None?)
    ensures r == UnknownOutputType <==>
              o.email.Some? && o.password.Some? && o.subdomain.Some? &&
              o.logLevel.Some? && LogRank(o.logLevel.value).Some? &&
              (o.outputType.None? || o.outputType.value !in OutputTypes)
  {
    var required := Required(o);
    assert required[0] == o.email && required[1] == o.password && required[2] == o.subdomain;
    if exists i :: 0 <= i < |required| && required[i].None? then MissingRequired
    else if o.logLevel.None? || LogRank(o.logLevel.value).None? then UnknownLogLevel
    else if o.outputType.None? || o.outputType.value !in OutputTypes then UnknownOutputType
    else Accepted
  }

  /** `invalid_inputs?`: despite its name, true exactly when the options
      are usable (every required input given, a known log level and a
      known output type). */
  function InvalidInputs(o: Options): (ok: bool) {
    CheckInputs(o) == Accepted
  }

  /** Accepted options are exactly the usable ones, and they configure an
      exporter: a known output type and a log level `log` can rank. */
  lemma InvalidInputsMeaning(o: Options)
    ensures InvalidInputs(o) <==>
              o.email.Some? && o.password.Some? && o.subdomain.Some? &&
              o.logLevel.Some? && LogRank(o.logLevel.value).Some? &&
              o.outputType.Some? && ParseOutputType(o.outputType.value).Some?
  {
    if o.email.None? {
      assert Required(o)[0].None?;
    } else if o.password.None? {
      assert Required(o)[1].None?;
    } else if o.subdomain.None? {
      assert Required(o)[2].None?;
    }
  }

  /** `log`: a message of `level` is written when the level is known and
      the configured level ranks at least as high. */
  function ShouldLog(configured: string, level: string): (r: bool)
    requires LogRank(configured).Some?
  {
    LogRank(level).Some? && LogRank(configured).value >= LogRank(level).value
  }

  /** Standard messages are always written, verbose ones only when running
      verbose, and messages of any other level never. */
  lemma ShouldLogMeaning(configured: string, level: string)
    requires LogRank(configured).Some?
    ensures ShouldLog(configured, level) <==>
              level == "standard" || (level == "verbose" && configured == "verbose")
  {
  }

  /** Raising the configured level never hides a message. */
  lemma ShouldLogMonotone(low: string, high: string, level: string)
    requires LogRank(low).Some? && LogRank(high).Some?
    requires LogRank(low).value <= LogRank(high).value
    ensures ShouldLog(low, level) ==> ShouldLog(high, level)
  {
  }
}
