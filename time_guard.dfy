/**
 * The time guard. `time_left()` is modelled as a budget of timer checks:
 * a check with budget 0 finds `time_left() < TIMER_THRESHOLD` and raises
 * SearchTimeout; any other check passes and uses up one unit. Since the
 * clock only runs down, a check that failed fails again.
 */
module TimeGuard {

  /** A search call either raised SearchTimeout or returned a value. */
  datatype Result<T> = Timeout | Ok(value: T)
}
