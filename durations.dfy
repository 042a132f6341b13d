/**
 * Go's `time.Duration` and `time.Time`, as integer nanoseconds.
 * An instant is the number of nanoseconds since 1970-01-01T00:00:00Z.
 */
module Durations {

  const Second: int := 1_000_000_000
  const Minute: int := 60 * Second
  const Hour: int := 60 * Minute
  const Day: int := 24 * Hour

  /** Go's zero `time.Time`, 0001-01-01T00:00:00Z, returned by getters of absent timestamps. */
  const ZeroTime: int := -62_135_596_800 * Second
}
