/**
 * The log-level switch of `main` (main.go:135-158) and what it means for which
 * of the program's messages reach the output.
 */
module Logging {

  /** The `slog` levels the program uses. */
  datatype Level = Debug | Info | Warn | Error

  /** `slog`'s numeric value of each level; a record is emitted when its value reaches the handler's. */
  function Severity(l: Level): int
  {
    match l
    case Debug => -4
    case Info => 0
    case Warn => 4
    case Error => 8
  }

  /** Whether a handler set to `configured` emits a record of level `message`. */
  predicate Emits(configured: Level, message: Level)
  {
    Severity(message) >= Severity(configured)
  }

  /**
   * The level in effect after the switch on `LOG_LEVEL`: it starts at INFO and
   * only the exact upper-case names "ERROR", "WARN" and "DEBUG" change it.
   */
  function ConfiguredLevel(name: string): (l: Level)
    ensures l == Error <==> name == "ERROR"
    ensures l == Warn <==> name == "WARN"
    ensures l == Debug <==> name == "DEBUG"
    ensures l == Info <==> name != "ERROR" && name != "WARN" && name != "DEBUG"
  {
    if name == "ERROR" then Error
    else if name == "WARN" then Warn
    else if name == "DEBUG" then Debug
    else Info
  }

  /**
   * The per-recording trace of the filter (a DEBUG record) shows only under
   * "DEBUG"; deletion notices (INFO) are hidden only by "ERROR" and "WARN";
   * errors always show.
   */
  lemma LevelVisibility(name: string)
    ensures Emits(ConfiguredLevel(name), Debug) <==> name == "DEBUG"
    ensures Emits(ConfiguredLevel(name), Info) <==> name != "ERROR" && name != "WARN"
    ensures Emits(ConfiguredLevel(name), Error)
  {
  }
}
