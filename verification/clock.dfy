/**
 The clock the animation reads. An instant is a whole number of milliseconds on a
 monotonic clock; a duration is a non-negative number of milliseconds.
 */
module Clock {

  type Millis = nat

  const MsPerSec: nat := 1000

  /** Minimum spacing between two toggles of the blink flag. */
  const BlinkSpacingMs: nat := 250

  /** How long after a toggle the current station is drawn red. */
  const RedWindowMs: nat := 125

  /** Seconds left at or under which the train counts as arriving soon. */
  const ArrivingSoonSecs: int := 2

  /** The time from `earlier` to `now`; zero when `earlier` is the later instant,
      as the saturating `Instant::duration_since` does. */
  function Since(now: Millis, earlier: Millis): (d: nat)
    ensures earlier <= now ==> earlier + d == now
    ensures now <= earlier ==> d == 0
  {
    if earlier <= now then now - earlier else 0
  }

  /** A duration in whole seconds, the fraction discarded (`Duration::as_secs`). */
  function WholeSecs(ms: nat): (secs: nat)
    ensures secs * MsPerSec <= ms < secs * MsPerSec + MsPerSec
  {
    ms / MsPerSec
  }

  /** Comparing a duration against whole seconds is the same in milliseconds
      (`elapsed >= Duration::from_secs(t)`) and in truncated seconds. */
  lemma AtLeastSecsIffWholeSecs(ms: nat, secs: int)
    ensures ms >= secs * MsPerSec <==> WholeSecs(ms) >= secs
  {
  }
}
