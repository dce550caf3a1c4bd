/**
 Instants on a local, daylight-saving-free timeline, counted in whole seconds.
 Instant 0 is midnight at the start of some calendar date; calendar dates are the
 consecutive 86400-second stretches that start at multiples of 86400.
 */
module Timeline {

  const SecondsPerHour: int := 3600
  const HoursPerDay: int := 24
  const SecondsPerDay: int := 86400

  /** Midnight that starts the calendar date of `t` (Carbon's `today()` when `t` is now). */
  function StartOfDay(t: int): (midnight: int)
    ensures midnight % SecondsPerDay == 0
    ensures midnight <= t < midnight + SecondsPerDay
  {
    t - t % SecondsPerDay
  }

  /** The hour-of-day of `t`, as Carbon's `->hour` reads it. */
  function HourOf(t: int): (h: int)
    ensures 0 <= h < HoursPerDay
    ensures StartOfDay(t) + h * SecondsPerHour <= t < StartOfDay(t) + (h + 1) * SecondsPerHour
  {
    (t % SecondsPerDay) / SecondsPerHour
  }

  /**
   `start` is the instant at `hour`:00:00 that most recently began, as seen from `t`:
   it lies at that hour of some calendar date and `t` falls within the 24 hours that follow it.
   */
  ghost predicate IsBoundary(start: int, hour: int, t: int)
  {
    && start % SecondsPerDay == hour * SecondsPerHour
    && start <= t < start + SecondsPerDay
  }

  /** At most one instant at a given hour of day starts a 24-hour stretch containing `t`. */
  lemma BoundaryUnique(s1: int, s2: int, hour: int, t: int)
    requires 0 <= hour < HoursPerDay
    requires IsBoundary(s1, hour, t) && IsBoundary(s2, hour, t)
    ensures s1 == s2
  {
  }

  /** A boundary instant sits at its hour of its calendar date. */
  lemma BoundaryHour(start: int, hour: int, t: int)
    requires 0 <= hour < HoursPerDay
    requires IsBoundary(start, hour, t)
    ensures HourOf(start) == hour
    ensures start == StartOfDay(start) + hour * SecondsPerHour
  {
  }
}
