/**
 * The resolution policy chosen at setup (src/plugin.ts:12, 17-39): what
 * happens when a reference names a variable with no visible value.
 *   - Error: the node's error is thrown and the walk stops;
 *   - Warn: a warning is added to the result and `$name` is kept;
 *   - Silent: `$name` is kept and nothing is reported.
 */
module LogPolicy {
  import opened Options

  datatype LogLevel = Error | Warn | Silent

  /** The option value that names each policy. */
  function LevelName(level: LogLevel): string
  {
    match level
    case Error => "error"
    case Warn => "warn"
    case Silent => "silent"
  }

  /** `options.logLevel || 'error'`: a missing or empty option means "error". */
  function EffectiveName(logLevel: Option<string>): string
  {
    if logLevel.None? || logLevel.value == "" then "error" else logLevel.value
  }

  /**
   * The lookup of the (defaulted) option in the table of policies, and the
   * setup error when it names none of them.
   */
  function SelectLogLevel(logLevel: Option<string>): (r: Result<LogLevel>)
    ensures r.Ok? <==> EffectiveName(logLevel) in {"error", "warn", "silent"}
    ensures r.Ok? ==> LevelName(r.value) == EffectiveName(logLevel)
    ensures r.Err? ==> r.msg == "Invalid logLevel: " + EffectiveName(logLevel)
    ensures logLevel.None? ==> r == Ok(Error)
  {
    var name := EffectiveName(logLevel);
    if name == "error" then Ok(Error)
    else if name == "warn" then Ok(Warn)
    else if name == "silent" then Ok(Silent)
    else Err("Invalid logLevel: " + name)
  }

  /** Naming a policy selects it. */
  lemma SelectLevelName(level: LogLevel)
    ensures SelectLogLevel(Some(LevelName(level))) == Ok(level)
  {
  }

  /** The message every policy receives for an unresolved name. */
  function UndefinedMessage(name: string): string
  {
    "Undefined variable: " + name
  }
}
