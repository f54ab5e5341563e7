/**
 * Cache freshness (`Utils.IsFresh`): a cached record is reused while the whole number of
 * days since it was written, as `TimeSpan.Days` counts them, is at most ten.
 * The clock is an input: instants are .NET ticks (units of 100 ns).
 */
module Cache {

  /** `TimeSpan.TicksPerSecond`. */
  const TicksPerSecond: int := 10_000_000

  /** `TimeSpan.TicksPerDay`. */
  const TicksPerDay: int := 864_000_000_000

  /** The longest age, in whole days, that still counts as fresh. */
  const FreshDays: int := 10

  /** `TimeSpan.Days`: whole days in a span of `ticks`, truncated toward zero. */
  function WholeDays(ticks: int): (d: int)
    ensures ticks >= 0 ==> 0 <= d && d * TicksPerDay <= ticks < (d + 1) * TicksPerDay
    ensures ticks < 0 ==> d <= 0 && (d - 1) * TicksPerDay < ticks <= d * TicksPerDay
  {
    if ticks >= 0 then ticks / TicksPerDay else -((-ticks) / TicksPerDay)
  }

  /** `IsFresh`: the file exists and `(now - lastWrite).Days <= 10`. */
  function IsFresh(fileExists: bool, nowTicks: int, lastWriteTicks: int): (r: bool)
    ensures r <==> fileExists && nowTicks - lastWriteTicks < (FreshDays + 1) * TicksPerDay
  {
    var age := nowTicks - lastWriteTicks;
    var days := WholeDays(age);
    assert days <= FreshDays <==> age < (FreshDays + 1) * TicksPerDay by {
      if age >= 0 {
        if days <= FreshDays {
          assert (days + 1) * TicksPerDay <= (FreshDays + 1) * TicksPerDay;
        } else {
          assert (FreshDays + 1) * TicksPerDay <= days * TicksPerDay;
        }
      }
    }
    fileExists && days <= FreshDays
  }

  /** A record written ten days and one second ago is still fresh, because the day count is truncated. */
  lemma FreshAfterTenDaysAndOneSecond(lastWriteTicks: int)
    ensures IsFresh(true, lastWriteTicks + 10 * TicksPerDay + TicksPerSecond, lastWriteTicks)
  {
  }

  /** A record written eleven days ago or earlier is stale. */
  lemma StaleFromElevenDays(nowTicks: int, lastWriteTicks: int)
    requires nowTicks - lastWriteTicks >= 11 * TicksPerDay
    ensures !IsFresh(true, nowTicks, lastWriteTicks)
  {
  }

  /** A last write time in the future counts as fresh. */
  lemma FutureWriteIsFresh(nowTicks: int, lastWriteTicks: int)
    requires nowTicks <= lastWriteTicks
    ensures IsFresh(true, nowTicks, lastWriteTicks)
  {
  }

  /** A missing file is never fresh. */
  lemma MissingIsNeverFresh(nowTicks: int, lastWriteTicks: int)
    ensures !IsFresh(false, nowTicks, lastWriteTicks)
  {
  }

  /** Freshness only ever runs out: fresh now means fresh at every earlier instant. */
  lemma FreshnessIsMonotone(earlier: int, later: int, lastWriteTicks: int)
    requires earlier <= later
    requires IsFresh(true, later, lastWriteTicks)
    ensures IsFresh(true, earlier, lastWriteTicks)
  {
  }
}
