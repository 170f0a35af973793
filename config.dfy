/** Application configuration (internal/config/config.go): settings read
    from the environment with defaults, then validated. The environment is
    a map from variable names to values (an unset variable reads as the
    empty string, as with os.Getenv); the Go standard parsers for booleans
    and durations are passed in as partial functions. Durations are counted
    in nanoseconds, as time.Duration is. */
module Config {
  import opened Wrappers

  type Env = map<string, string>
  /** A parser that may reject its input. */
  type Parser<T> = string -> Option<T>

  const Second := 1_000_000_000

  datatype ServerConfig = ServerConfig(
    port: string, readTimeout: int, writeTimeout: int, shutdownTimeout: int, mode: string)

  datatype LoggingConfig = LoggingConfig(level: string, format: string)

  datatype ObservabilityConfig = ObservabilityConfig(
    serviceName: string, serviceVersion: string, environment: string,
    tracingEnabled: bool, tracingEndpoint: string, metricsEnabled: bool)

  datatype AppConfig = AppConfig(server: ServerConfig, logging: LoggingConfig, observability: ObservabilityConfig)

  /** The reason a configuration is rejected, carrying the offending value. */
  datatype ConfigError =
    | EmptyPort
    | InvalidLogLevel(level: string)
    | InvalidLogFormat(format: string)
    | InvalidServerMode(mode: string)

  const LogLevels: set<string> := {"debug", "info", "warn", "error"}
  const LogFormats: set<string> := {"json", "text"}
  const ServerModes: set<string> := {"debug", "release"}

  /** Acceptable exactly when the port is non-empty and level, format and
      mode are among the allowed values; otherwise the first failing check,
      in the order port, level, format, mode, is reported. */
  function Validate(c: AppConfig): (r: Outcome<ConfigError>)
    ensures r.Pass? <==> (c.server.port != "" && c.logging.level in LogLevels &&
                          c.logging.format in LogFormats && c.server.mode in ServerModes)
    ensures r == Fail(EmptyPort) <==> c.server.port == ""
    ensures r.Fail? && r.error.InvalidLogLevel? ==>
              c.server.port != "" && r.error.level == c.logging.level && c.logging.level !in LogLevels
    ensures r.Fail? && r.error.InvalidLogFormat? ==>
              c.server.port != "" && c.logging.level in LogLevels &&
              r.error.format == c.logging.format && c.logging.format !in LogFormats
    ensures r.Fail? && r.error.InvalidServerMode? ==>
              c.server.port != "" && c.logging.level in LogLevels && c.logging.format in LogFormats &&
              r.error.mode == c.server.mode && c.server.mode !in ServerModes
  {
    if c.server.port == "" then Fail(EmptyPort)
    else if c.logging.level != "debug" && c.logging.level != "info" &&
            c.logging.level != "warn" && c.logging.level != "error" then
      Fail(InvalidLogLevel(c.logging.level))
    else if c.logging.format != "json" && c.logging.format != "text" then
      Fail(InvalidLogFormat(c.logging.format))
    else if c.server.mode != "debug" && c.server.mode != "release" then
      Fail(InvalidServerMode(c.server.mode))
    else Pass
  }

  /** Whether the environment holds a non-empty value for `key`. */
  predicate IsSet(env: Env, key: string) {
    key in env && env[key] != ""
  }

  /** The variable's value, or the default when it is unset or empty. */
  function GetEnv(env: Env, key: string, default: string): (v: string)
    ensures IsSet(env, key) ==> v == env[key]
    ensures !IsSet(env, key) ==> v == default
    ensures v == "" ==> default == ""
  {
    if IsSet(env, key) then env[key] else default
  }

  /** A boolean variable: its parsed value when it is set and parses, the
      default when it is unset, empty or rejected by the parser. */
  function GetBoolEnv(env: Env, key: string, default: bool, parseBool: Parser<bool>): (v: bool)
    ensures IsSet(env, key) && parseBool(env[key]).Some? ==> v == parseBool(env[key]).value
    ensures !IsSet(env, key) || parseBool(env[key]).None? ==> v == default
  {
    if IsSet(env, key) then
      match parseBool(env[key])
      case Some(b) => b
      case None => default
    else default
  }

  /** A duration variable, with the same fallback rule as booleans. */
  function GetDurationEnv(env: Env, key: string, default: int, parseDuration: Parser<int>): (v: int)
    ensures IsSet(env, key) && parseDuration(env[key]).Some? ==> v == parseDuration(env[key]).value
    ensures !IsSet(env, key) || parseDuration(env[key]).None? ==> v == default
  {
    if IsSet(env, key) then
      match parseDuration(env[key])
      case Some(d) => d
      case None => default
    else default
  }

  /** The configuration every setting takes when nothing is set. */
  const Defaults := AppConfig(
    ServerConfig("8080", 30 * Second, 30 * Second, 10 * Second, "release"),
    LoggingConfig("info", "json"),
    ObservabilityConfig("pacman-game", "1.0.0", "development", true, "", true))

  /** The configuration read from the environment, before validation. */
  function FromEnv(env: Env, parseBool: Parser<bool>, parseDuration: Parser<int>): (c: AppConfig)
    ensures c.server.port != ""
    ensures IsSet(env, "LOG_LEVEL") ==> c.logging.level == env["LOG_LEVEL"]
    ensures !IsSet(env, "LOG_LEVEL") ==> c.logging.level == Defaults.logging.level
    ensures IsSet(env, "LOG_FORMAT") ==> c.logging.format == env["LOG_FORMAT"]
    ensures !IsSet(env, "LOG_FORMAT") ==> c.logging.format == Defaults.logging.format
    ensures IsSet(env, "GIN_MODE") ==> c.server.mode == env["GIN_MODE"]
    ensures !IsSet(env, "GIN_MODE") ==> c.server.mode == Defaults.server.mode
  {
    AppConfig(
      ServerConfig(
        GetEnv(env, "PORT", "8080"),
        GetDurationEnv(env, "READ_TIMEOUT", 30 * Second, parseDuration),
        GetDurationEnv(env, "WRITE_TIMEOUT", 30 * Second, parseDuration),
        GetDurationEnv(env, "SHUTDOWN_TIMEOUT", 10 * Second, parseDuration),
        GetEnv(env, "GIN_MODE", "release")),
      LoggingConfig(
        GetEnv(env, "LOG_LEVEL", "info"),
        GetEnv(env, "LOG_FORMAT", "json")),
      ObservabilityConfig(
        GetEnv(env, "SERVICE_NAME", "pacman-game"),
        GetEnv(env, "SERVICE_VERSION", "1.0.0"),
        GetEnv(env, "ENVIRONMENT", "development"),
        GetBoolEnv(env, "TRACING_ENABLED", true, parseBool),
        GetEnv(env, "TRACING_ENDPOINT", ""),
        GetBoolEnv(env, "METRICS_ENABLED", true, parseBool)))
  }

  /** Reads the configuration and accepts it only when it validates; the
      error is the validation's, wrapped. */
  function Load(env: Env, parseBool: Parser<bool>, parseDuration: Parser<int>): (r: Result<AppConfig, ConfigError>)
    ensures r.Ok? <==> Validate(FromEnv(env, parseBool, parseDuration)).Pass?
    ensures r.Ok? ==> r.value == FromEnv(env, parseBool, parseDuration)
    ensures r.Err? ==> Validate(FromEnv(env, parseBool, parseDuration)) == Fail(r.error)
  {
    var c := FromEnv(env, parseBool, parseDuration);
    match Validate(c)
    case Fail(e) => Err(e)
    case Pass => Ok(c)
  }

  /** With nothing set, loading yields the defaults, and they are valid. */
  lemma DefaultsLoad(parseBool: Parser<bool>, parseDuration: Parser<int>)
    ensures Load(map[], parseBool, parseDuration) == Ok(Defaults)
  {
    assert FromEnv(map[], parseBool, parseDuration) == Defaults;
  }

  /** Every accepted configuration satisfies all the validation rules. */
  lemma LoadedIsValid(env: Env, parseBool: Parser<bool>, parseDuration: Parser<int>)
    requires Load(env, parseBool, parseDuration).Ok?
    ensures var c := Load(env, parseBool, parseDuration).value;
      c.server.port != "" && c.logging.level in LogLevels &&
      c.logging.format in LogFormats && c.server.mode in ServerModes
  {
  }

  /** The empty-port check cannot fire on a loaded configuration: an empty
      PORT falls back to the default port. */
  lemma LoadNeverRejectsPort(env: Env, parseBool: Parser<bool>, parseDuration: Parser<int>)
    ensures Load(env, parseBool, parseDuration) != Err(EmptyPort)
  {
  }

  /** A load error always names the value of a variable that is set: the
      defaults themselves never fail validation. */
  lemma {:induction false} ErrorsComeFromEnv(env: Env, parseBool: Parser<bool>, parseDuration: Parser<int>)
    requires Load(env, parseBool, parseDuration).Err?
    ensures match Load(env, parseBool, parseDuration).error
      case EmptyPort => false
      case InvalidLogLevel(l) => IsSet(env, "LOG_LEVEL") && env["LOG_LEVEL"] == l
      case InvalidLogFormat(f) => IsSet(env, "LOG_FORMAT") && env["LOG_FORMAT"] == f
      case InvalidServerMode(m) => IsSet(env, "GIN_MODE") && env["GIN_MODE"] == m
  {
    assert Defaults.logging.level in LogLevels;
    assert Defaults.logging.format in LogFormats;
    assert Defaults.server.mode in ServerModes;
  }
}
