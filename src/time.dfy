/**
 * .NET `DateTime` and `TimeSpan` values as whole numbers of ticks (100 ns units;
 * a `DateTime` counts from 0001-01-01T00:00). Clock reads (`DateTime.Now`,
 * `DateTime.Today`, `DateTime.UtcNow`) are parameters of the operations that use them.
 */
module Time {

  type DateTime = nat

  const TicksPerDay: nat := 864_000_000_000

  /** `DateTime.Date`: the midnight that starts the day of `t`. */
  function Date(t: DateTime): (d: DateTime)
    ensures d <= t < d + TicksPerDay
    ensures d % TicksPerDay == 0
  {
    t - t % TicksPerDay
  }

  /** `DateTime.AddDays` for a whole, non-negative number of days. */
  function AddDays(t: DateTime, days: nat): DateTime {
    t + days * TicksPerDay
  }

  /** `new DateTime(1400, 1, 1)`: 1399 years of 365 days plus 339 leap days after 0001-01-01. */
  const Year1400Start: DateTime := 510_974 * TicksPerDay

  /**
   * `TimeSpan.Days` of a span of `ticks`: the whole days, truncated toward zero as C#
   * integer division does (Dafny's `/` is Euclidean, so the negative case is written out).
   */
  function WholeDays(ticks: int): (d: int)
    ensures ticks >= 0 ==> 0 <= d && d * TicksPerDay <= ticks < (d + 1) * TicksPerDay
    ensures ticks < 0 ==> d <= 0 && (d - 1) * TicksPerDay < ticks <= d * TicksPerDay
  {
    if ticks >= 0 then ticks / TicksPerDay else -((-ticks) / TicksPerDay)
  }
}
