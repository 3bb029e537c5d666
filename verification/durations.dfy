/** `time.Duration` is a signed 64-bit count of nanoseconds; Go's integer
    arithmetic on it wraps around and its division truncates toward zero. */
module Durations {
  import opened Decimal

  type Duration = int

  /** `time.Millisecond` in nanoseconds. */
  const Millisecond: int := 1_000_000

  /** Reduce an integer to the int64 value two's-complement arithmetic leaves. */
  function Wrap64(x: int): (r: int)
    ensures InInt64(r)
    ensures InInt64(x) ==> r == x
    ensures (r - x) % 0x1_0000_0000_0000_0000 == 0
  {
    (x - MinInt64) % 0x1_0000_0000_0000_0000 + MinInt64
  }

  /** `time.Duration(ms) * time.Millisecond`, with int64 wrap-around. */
  function FromMillis(ms: int): (d: Duration)
    ensures InInt64(ms * Millisecond) ==> d == ms * Millisecond
  {
    Wrap64(ms * Millisecond)
  }

  /** `d.Milliseconds()`: whole milliseconds, truncated toward zero. */
  function Milliseconds(d: Duration): (ms: int)
    ensures d >= 0 ==> 0 <= ms * Millisecond <= d < (ms + 1) * Millisecond
    ensures d < 0 ==> (ms - 1) * Millisecond < d <= ms * Millisecond <= 0
  {
    if d >= 0 then d / Millisecond else -((-d) / Millisecond)
  }

  /** Whole milliseconds survive the trip through a Duration when they fit. */
  lemma MillisRoundTrip(ms: int)
    requires InInt64(ms * Millisecond)
    ensures Milliseconds(FromMillis(ms)) == ms
  {
    if ms < 0 {
      assert -(ms * Millisecond) == (-ms) * Millisecond;
    }
  }
}
