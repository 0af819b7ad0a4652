/**
 * Stand-ins for the parts of the `chrono` crate the core uses. A
 * `DateTime<Utc>` is a whole number of nanoseconds since the Unix epoch;
 * `parse_from_str` (with and without a UTC offset) is not modelled and is
 * passed around as a pair of functions, so every result about the core holds
 * for whatever those functions do.
 */
module Chrono {
  import opened Wrappers

  /** A `DateTime<Utc>`: nanoseconds since 1970-01-01T00:00:00Z. */
  type Instant = int

  const NanosPerMicro: int := 1000
  const NanosPerSecond: int := 1_000_000_000
  const MicrosPerSecond: int := 1_000_000

  /**
   * `DateTime::parse_from_str(text, format)` converted to UTC, and
   * `NaiveDateTime::parse_from_str(text, format)` read as UTC.
   */
  datatype Parsers = Parsers(
    withOffset: (string, string) -> Option<Instant>,
    naive: (string, string) -> Option<Instant>)

  /** `DateTime::timestamp_micros`: whole microseconds, rounded towards minus infinity. */
  function TimestampMicros(t: Instant): (us: int)
    ensures us * NanosPerMicro <= t < us * NanosPerMicro + NanosPerMicro
  {
    t / NanosPerMicro
  }

  /** `DateTime::from_timestamp(secs, 0)` for seconds well inside chrono's range. */
  function FromTimestamp(secs: int): (t: Instant)
    ensures TimestampMicros(t) == secs * MicrosPerSecond
  {
    secs * NanosPerSecond
  }
}
