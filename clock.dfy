/**
 * Time as the server sees it: milliseconds since the Unix epoch, and the
 * local midnight that `new Date()` followed by `setHours(0, 0, 0, 0)` yields.
 * The server's local zone is a fixed offset `zone` (milliseconds ahead of UTC).
 */
module Clock {
  type Time = int

  const MsPerDay: int := 86_400_000

  /** The local midnight that starts the day containing `t`. */
  function StartOfDay(t: Time, zone: int): (m: Time)
    ensures m <= t < m + MsPerDay
    ensures (m + zone) % MsPerDay == 0
  {
    MultipleModZero(t + zone);
    t - (t + zone) % MsPerDay
  }

  lemma MultipleModZero(x: int)
    ensures (x - x % MsPerDay) % MsPerDay == 0
  {
    var q := x / MsPerDay;
    assert x - x % MsPerDay == q * MsPerDay;
    MulMod(q);
  }

  lemma MulMod(q: int)
    ensures (q * MsPerDay) % MsPerDay == 0
  {
  }

  lemma MultipleBounds(d: int)
    ensures d >= 1 ==> d * MsPerDay >= MsPerDay
    ensures d <= -1 ==> d * MsPerDay <= -MsPerDay
  {
  }

  /** A local midnight `m` with `m <= t < m + MsPerDay` is the start of `t`'s day: midnights are unique per day. */
  lemma MidnightIsStartOfDay(m: Time, t: Time, zone: int)
    requires (m + zone) % MsPerDay == 0
    requires m <= t < m + MsPerDay
    ensures StartOfDay(t, zone) == m
  {
    var s := StartOfDay(t, zone);
    var k := (m + zone) / MsPerDay;
    var l := (s + zone) / MsPerDay;
    assert m + zone == k * MsPerDay;
    assert s + zone == l * MsPerDay;
    MultipleBounds(k - l);
    assert m - s == (k - l) * MsPerDay;
  }

  /** Every moment from a day's midnight up to `t` lies on `t`'s day. */
  lemma SameDayAsNow(d: Time, t: Time, zone: int)
    requires StartOfDay(t, zone) <= d <= t
    ensures StartOfDay(d, zone) == StartOfDay(t, zone)
  {
    MidnightIsStartOfDay(StartOfDay(t, zone), d, zone);
  }
}
