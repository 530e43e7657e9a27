/**
 * Wall-clock arithmetic shared by the row generator, the label formatter and
 * the row geometry. A timestamp is an integer number of milliseconds on the
 * local wall clock: the host's fixed UTC offset is folded in and there is no
 * daylight-saving shift, so the local hour and minute of a timestamp are plain
 * floor divisions (Dafny's Euclidean `/` and `%` agree with floor division for
 * the positive divisors used here, also before the epoch).
 */
module Clock {

  type Millis = int

  const MsPerMinute: int := 60000
  const MsPerHour: int := 3600000
  const MinutesPerDay: int := 1440

  /** Date.getMinutes(): the minute within the hour, 0..59. */
  function MinuteOfHour(t: Millis): (m: int)
    ensures 0 <= m < 60
  {
    (t / MsPerMinute) % 60
  }

  /** Date.getHours(): the hour within the day, 0..23. */
  function HourOfDay(t: Millis): (h: int)
    ensures 0 <= h < 24
  {
    (t / MsPerHour) % 24
  }

  /** The minute within the day that a wall clock shows for t. */
  function MinuteOfDay(t: Millis): (m: int)
    ensures 0 <= m < MinutesPerDay
  {
    HourOfDay(t) * 60 + MinuteOfHour(t)
  }

  /** Width, in milliseconds, of a window of the given number of minutes. */
  function Span(minutes: int): (ms: int)
    requires minutes > 0
    ensures ms >= MsPerMinute
  {
    minutes * MsPerMinute
  }

  /** The hour of t consists of whole minutes: the start of t's hour plus its minute. */
  lemma HourDecomposition(t: Millis)
    ensures t / MsPerHour == (t / MsPerMinute) / 60
    ensures t % MsPerHour == MinuteOfHour(t) * MsPerMinute + t % MsPerMinute
  {
  }

  /** k * d is a multiple of d, with quotient k. */
  lemma {:induction false} DivExact(m: int, d: int, k: int)
    requires d > 0 && m == k * d
    ensures m % d == 0 && m / d == k
  {
    var q := m / d;
    var r := m % d;
    assert (k - q) * d == r;
    if k - q >= 1 {
      MulAtLeast(k - q, d);
    } else if k - q <= -1 {
      MulAtLeast(q - k, d);
    }
  }

  /** A positive multiple of d is at least d. */
  lemma {:induction false} MulAtLeast(a: int, d: int)
    requires a >= 1 && d > 0
    ensures a * d >= d
    decreases a
  {
    if a > 1 {
      MulAtLeast(a - 1, d);
      assert a * d == (a - 1) * d + d;
    }
  }

  /** Multiplying by a positive number keeps the order. */
  lemma MulMonotone(a: int, b: int, d: int)
    requires a <= b && d > 0
    ensures a * d <= b * d
  {
    if a < b {
      MulAtLeast(b - a, d);
      assert b * d - a * d == (b - a) * d;
    }
  }
}
