/** Times and durations are integers in nanoseconds. */
module Durations {
  const SECOND := 1_000_000_000
}
