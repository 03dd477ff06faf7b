/** Readings of the steady clock, in nanoseconds. */
module Clock {
  type Time = int
  const SECOND: Time := 1_000_000_000
}
