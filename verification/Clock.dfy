/** Durations, in nanoseconds. */
module Clock {
  const NANOS_PER_SECOND: nat := 1_000_000_000
  const NANOS_PER_MINUTE: nat := 60 * NANOS_PER_SECOND
  const NANOS_PER_HOUR: nat := 60 * NANOS_PER_MINUTE
  const NANOS_PER_DAY: nat := 24 * NANOS_PER_HOUR
}
