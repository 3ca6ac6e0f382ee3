/** Log levels, pans/include/pans/Logger/Log_level.h. */
module LogLevel {
  datatype Level = Debug | Info | Warn | Error | Fatal | Off

  /** The `u8` the gates compare. */
  function Rank(level: Level): nat {
    match level
    case Debug => 0
    case Info => 1
    case Warn => 2
    case Error => 3
    case Fatal => 4
    case Off => 5
  }

  function Name(level: Level): string {
    match level
    case Debug => "DEBUG"
    case Info => "INFO"
    case Warn => "WARN"
    case Error => "ERROR"
    case Fatal => "FATAL"
    case Off => "OFF"
  }
}
