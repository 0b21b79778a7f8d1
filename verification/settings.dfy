/** The field validators and defaults of `src/config/settings.py`, and the loading
    of the four settings groups. A validator that raises `ValueError` is a
    `Failure` carrying the message it raises with. */
module Settings {
  import opened Wrappers
  import Text

  // ---------------------------------------------------------------------------
  // Defaults

  const DefaultPort: int := 5432
  const DefaultMaxArticles: int := 150
  const DefaultLogLevel: string := "INFO"

  // ---------------------------------------------------------------------------
  // The validators

  const PortError := "Port must be between 1 and 65535"

  function ValidatePort(v: int): (r: Result<int, string>)
    ensures r.Success? <==> 1 <= v <= 65535
    ensures r.Success? ==> r.value == v
    ensures r.Failure? ==> r.error == PortError
  {
    if !(1 <= v <= 65535) then Failure(PortError) else Success(v)
  }

  const MinApiKey: nat := 10
  const ApiKeyError := "API key seems too short"

  /** Only a key that is set and non-empty is length-checked: an empty key passes. */
  function ValidateApiKey(v: Option<string>): (r: Result<Option<string>, string>)
    ensures r.Failure? <==> v.Some? && v.value != "" && |v.value| < MinApiKey
    ensures r.Success? ==> r.value == v
    ensures r.Failure? ==> r.error == ApiKeyError
  {
    if v.Some? && v.value != "" && |v.value| < MinApiKey then Failure(ApiKeyError) else Success(v)
  }

  const MaxArticlesLimit: int := 10000
  const MaxArticlesNotPositive := "Max articles must be positive"
  const MaxArticlesTooHigh := "Max articles too high (max 10000)"

  function ValidateMaxArticles(v: int): (r: Result<int, string>)
    ensures r.Success? <==> 1 <= v <= MaxArticlesLimit
    ensures r.Success? ==> r.value == v
    ensures v <= 0 ==> r == Failure(MaxArticlesNotPositive)
    ensures v > MaxArticlesLimit ==> r == Failure(MaxArticlesTooHigh)
  {
    if v <= 0 then Failure(MaxArticlesNotPositive)
    else if v > MaxArticlesLimit then Failure(MaxArticlesTooHigh)
    else Success(v)
  }

  const LogLevels: seq<string> := ["DEBUG", "INFO", "WARNING", "ERROR", "CRITICAL"]
  const LogLevelError := "Log level must be one of: ['DEBUG', 'INFO', 'WARNING', 'ERROR', 'CRITICAL']"

  /** Accepts any spelling of a level up to case and returns it upper-cased. */
  function ValidateLogLevel(v: string): (r: Result<string, string>)
    ensures r.Success? <==> Text.Upper(v) in LogLevels
    ensures r.Success? ==> r.value in LogLevels && |r.value| == |v|
    ensures r.Success? ==> forall i :: 0 <= i < |v| ==> r.value[i] == Text.UpperChar(v[i])
    ensures r.Failure? ==> r.error == LogLevelError
  {
    var u := Text.Upper(v);
    if u !in LogLevels then Failure(LogLevelError) else Success(u)
  }

  /** Feeding the normalised level back in gives it back unchanged. */
  lemma LogLevelIdempotent(v: string)
    ensures ValidateLogLevel(v).Success? ==> ValidateLogLevel(ValidateLogLevel(v).value) == ValidateLogLevel(v)
  {
    Text.UpperIdempotent(v);
  }

  /** Upper-casing undoes lower-casing on a string of capital letters. */
  lemma UpperOfLower(s: string)
    requires forall i :: 0 <= i < |s| ==> 'A' <= s[i] <= 'Z'
    ensures Text.Upper(Text.Lower(s)) == s
  {
  }

  /** Every level is accepted in lower case too, and normalised back to itself. */
  lemma LowerCaseLevelsAccepted(level: string)
    requires level in LogLevels
    ensures ValidateLogLevel(Text.Lower(level)) == Success(level)
  {
    var k :| 0 <= k < |LogLevels| && LogLevels[k] == level;
    assert forall i :: 0 <= i < |level| ==> 'A' <= level[i] <= 'Z';
    UpperOfLower(level);
  }

  /** The defaults pass their own validators. */
  lemma DefaultsValid()
    ensures ValidatePort(DefaultPort) == Success(DefaultPort)
    ensures ValidateMaxArticles(DefaultMaxArticles) == Success(DefaultMaxArticles)
    ensures ValidateLogLevel(DefaultLogLevel) == Success(DefaultLogLevel)
  {
    UpperOfLower(DefaultLogLevel);
    assert Text.Upper(DefaultLogLevel) == DefaultLogLevel;
  }

  // ---------------------------------------------------------------------------
  // Loading

  /** The validated fields as read from the environment; `None` when the variable is
      unset and the field keeps its default. */
  datatype Environment = Environment(port: Option<int>, apiKey: Option<string>,
                                     maxArticles: Option<int>, logLevel: Option<string>)

  datatype Config = Config(port: int, apiKey: Option<string>, maxArticles: int, logLevel: string)

  /** A field left at its default is not validated; a field that is given is. */
  function Field<T>(given: Option<T>, default: T, validate: T -> Result<T, string>): (r: Result<T, string>)
    ensures given.None? ==> r == Success(default)
    ensures given.Some? ==> r == validate(given.value)
  {
    match given
    case None => Success(default)
    case Some(v) => validate(v)
  }

  /** `Settings()`: the database, Gemini, PubMed and application groups in that
      order; the first group whose field fails stops the load. The API key's default
      is `None`, which its validator accepts anyway. */
  function LoadSettings(env: Environment): (r: Result<Config, string>)
    ensures r.Success? <==> && (env.port.None? || 1 <= env.port.value <= 65535)
                            && (env.apiKey.None? || ValidateApiKey(env.apiKey).Success?)
                            && (env.maxArticles.None? || 1 <= env.maxArticles.value <= MaxArticlesLimit)
                            && (env.logLevel.None? || Text.Upper(env.logLevel.value) in LogLevels)
    ensures r.Success? ==> r.value.port == env.port.GetOr(DefaultPort)
    ensures r.Success? ==> r.value.apiKey == env.apiKey
    ensures r.Success? ==> r.value.maxArticles == env.maxArticles.GetOr(DefaultMaxArticles)
    ensures r.Success? ==> r.value.logLevel in LogLevels
    ensures r.Success? ==> r.value.logLevel == Text.Upper(env.logLevel.GetOr(DefaultLogLevel))
    ensures env.port.Some? && !(1 <= env.port.value <= 65535) ==> r == Failure(PortError)
  {
    var port :- Field(env.port, DefaultPort, ValidatePort);
    var apiKey :- ValidateApiKey(env.apiKey);
    var maxArticles :- Field(env.maxArticles, DefaultMaxArticles, ValidateMaxArticles);
    DefaultsValid();
    var logLevel :- Field(env.logLevel, DefaultLogLevel, ValidateLogLevel);
    Success(Config(port, apiKey, maxArticles, logLevel))
  }

  /** With nothing set, every field takes its default. */
  lemma LoadDefaults()
    ensures LoadSettings(Environment(None, None, None, None)) ==
            Success(Config(DefaultPort, None, DefaultMaxArticles, DefaultLogLevel))
  {
  }
}
