/** Durations, the monotonic clock and the wall clock, all counted in nanoseconds. */
module Time {
  import opened Wrappers

  const SECOND: nat := 1_000_000_000

  /** Both clocks store 64-bit signed seconds and a nanosecond remainder. */
  const MAX_INSTANT: nat := 0x7FFF_FFFF_FFFF_FFFF * SECOND + (SECOND - 1)
  const MIN_SYSTEM_TIME: int := -0x8000_0000_0000_0000 * SECOND

  type Duration = nat

  /** A reading of the monotonic clock. */
  type Instant = t: int | 0 <= t <= MAX_INSTANT

  /** A reading of the wall clock, relative to the Unix epoch. */
  type SystemTime = t: int | MIN_SYSTEM_TIME <= t <= MAX_INSTANT

  function CheckedAdd(t: Instant, d: Duration): Option<Instant> {
    if t + d <= MAX_INSTANT then Some(t + d) else None
  }

  function SystemCheckedAdd(t: SystemTime, d: Duration): Option<SystemTime> {
    if t + d <= MAX_INSTANT then Some(t + d) else None
  }

  function SaturatingSub(a: Duration, b: Duration): Duration {
    if a < b then 0 else a - b
  }

  function Max(a: int, b: int): (m: int)
    ensures a <= m && b <= m && (m == a || m == b)
  {
    if a < b then b else a
  }

  function Min(a: int, b: int): (m: int)
    ensures m <= a && m <= b && (m == a || m == b)
  {
    if b < a then b else a
  }
}
