/** Time-of-day arithmetic shared by both schedulers and the settings page.

    An instant is an integer number of milliseconds on the local clock's scale,
    with every day exactly 1440 minutes long, so that local midnight falls on the
    multiples of DAY_MS. A time of day is a number of minutes since midnight. */
module Clock {
  import opened Wrappers

  const MINUTE_MS := 60_000
  const HOUR_MS := 3_600_000
  const DAY_MS := 86_400_000
  const MINUTES_PER_DAY := 1440

  /** `getHours() * 60 + getMinutes()` of the instant `t`. */
  function MinuteOfDay(t: int): (m: int)
    ensures 0 <= m < MINUTES_PER_DAY
  {
    (t / MINUTE_MS) % MINUTES_PER_DAY
  }

  /** Local midnight at or before `t`. */
  function StartOfDay(t: int): (r: int)
    ensures r <= t < r + DAY_MS
    ensures r % DAY_MS == 0
  {
    t - t % DAY_MS
  }

  predicate IsDigit(c: char) {
    '0' <= c <= '9'
  }

  function DigitValue(c: char): (d: int)
    requires IsDigit(c)
    ensures 0 <= d <= 9
  {
    c as int - '0' as int
  }

  function DigitChar(d: int): (c: char)
    requires 0 <= d <= 9
    ensures IsDigit(c) && DigitValue(c) == d
  {
    ('0' as int + d) as char
  }

  /** The shape accepted by `^([0-1]?[0-9]|2[0-3]):[0-5][0-9]$`: `H:MM` with any
      single digit for H, or `HH:MM` with HH from 00 to 23; MM from 00 to 59. */
  function IsValidTime(s: string): (valid: bool)
    ensures valid ==> (|s| == 4 || |s| == 5) && s[|s| - 3] == ':'
    ensures valid ==> IsDigit(s[0]) && IsDigit(s[|s| - 4]) && IsDigit(s[|s| - 2]) && IsDigit(s[|s| - 1])
  {
    || (|s| == 4 && IsDigit(s[0]) && s[1] == ':' && '0' <= s[2] <= '5' && IsDigit(s[3]))
    || (&& |s| == 5
        && (('0' <= s[0] <= '1' && IsDigit(s[1])) || (s[0] == '2' && '0' <= s[1] <= '3'))
        && s[2] == ':' && '0' <= s[3] <= '5' && IsDigit(s[4]))
  }

  /** The first number of `s.split(':').map(Number)` for a valid time. */
  function Hours(s: string): (h: int)
    requires IsValidTime(s)
    ensures 0 <= h < 24
  {
    if |s| == 4 then DigitValue(s[0]) else 10 * DigitValue(s[0]) + DigitValue(s[1])
  }

  /** The second number of `s.split(':').map(Number)` for a valid time. */
  function Minutes(s: string): (m: int)
    requires IsValidTime(s)
    ensures 0 <= m < 60
  {
    10 * DigitValue(s[|s| - 2]) + DigitValue(s[|s| - 1])
  }

  /** `hours * 60 + minutes`: the time of day a valid time string names. */
  function ToMinutes(s: string): (m: int)
    requires IsValidTime(s)
    ensures 0 <= m < MINUTES_PER_DAY
  {
    Hours(s) * 60 + Minutes(s)
  }

  /** The time of day of `s`, or None when `s` is not of the `H:MM`/`HH:MM` shape.
      A string that parses is the zero-padded spelling of its time of day, or
      that spelling without its leading `0`. */
  function ParseTime(s: string): (r: Option<int>)
    ensures r.Some? <==> IsValidTime(s)
    ensures r.Some? ==> 0 <= r.value < MINUTES_PER_DAY && r.value == ToMinutes(s)
    ensures r.Some? && |s| == 5 ==> s == TimeString(r.value)
    ensures r.Some? && |s| == 4 ==> s == TimeString(r.value)[1..] && TimeString(r.value)[0] == '0'
  {
    if IsValidTime(s) then
      TimeStringUnique(s);
      Some(ToMinutes(s))
    else None
  }

  /** The zero-padded `HH:MM` spelling of a time of day, as a time input field gives it. */
  function TimeString(m: int): string
    requires 0 <= m < MINUTES_PER_DAY
  {
    var h, mm := m / 60, m % 60;
    [DigitChar(h / 10), DigitChar(h % 10), ':', DigitChar(mm / 10), DigitChar(mm % 10)]
  }

  /** Every time of day has a valid five-character spelling that parses back to it. */
  lemma TimeStringRoundTrip(m: int)
    requires 0 <= m < MINUTES_PER_DAY
    ensures IsValidTime(TimeString(m)) && |TimeString(m)| == 5
    ensures ToMinutes(TimeString(m)) == m
  {
    var s, h, mm := TimeString(m), m / 60, m % 60;
    assert h < 24;
    assert Hours(s) == 10 * (h / 10) + h % 10 == h;
    assert Minutes(s) == 10 * (mm / 10) + mm % 10 == mm;
  }

  /** A valid five-character time is the one zero-padded spelling of its time of
      day, and a valid four-character `H:MM` is that spelling without its leading
      `0`; so two distinct `HH:MM` strings always name distinct times of day. */
  lemma TimeStringUnique(s: string)
    requires IsValidTime(s)
    ensures |s| == 5 ==> TimeString(ToMinutes(s)) == s
    ensures |s| == 4 ==> TimeString(ToMinutes(s)) == ['0'] + s
  {
    var m := ToMinutes(s);
    var h, mm := Hours(s), Minutes(s);
    assert m / 60 == h && m % 60 == mm;
    var t := TimeString(m);
    if |s| == 5 {
      assert h / 10 == DigitValue(s[0]) && h % 10 == DigitValue(s[1]);
      assert mm / 10 == DigitValue(s[3]) && mm % 10 == DigitValue(s[4]);
      assert t[0] == s[0] && t[1] == s[1] && t[2] == s[2] && t[3] == s[3] && t[4] == s[4];
    } else {
      assert h / 10 == 0 && h % 10 == DigitValue(s[0]);
      assert mm / 10 == DigitValue(s[2]) && mm % 10 == DigitValue(s[3]);
      assert t[0] == '0' && t[1] == s[0] && t[2] == s[1] && t[3] == s[2] && t[4] == s[3];
      assert t == ['0'] + s;
    }
  }

  /** `isInWindow` on times of day: the half-open window [start, end), which wraps
      round midnight to [start, 1440) plus [0, end) when end < start. */
  predicate InWindow(m: int, start: int, end: int) {
    if end < start then m >= start || m < end else m >= start && m < end
  }

  /** Independent definition of the window: the minutes elapsed since the window
      opened, counted round the clock, are fewer than the window's length. */
  lemma InWindowByCyclicOffset(m: int, start: int, end: int)
    requires 0 <= m < MINUTES_PER_DAY && 0 <= start < MINUTES_PER_DAY && 0 <= end < MINUTES_PER_DAY
    ensures InWindow(m, start, end) <==>
            (m - start) % MINUTES_PER_DAY < (end - start) % MINUTES_PER_DAY
  {
    var d := MINUTES_PER_DAY;
    assert (m - start) % d == if m >= start then m - start else m - start + d;
    assert (end - start) % d == if end >= start then end - start else end - start + d;
  }

  /** A window that wraps past midnight is exactly the complement of the window
      from its end to its start. */
  lemma WrappingWindowIsComplement(m: int, start: int, end: int)
    requires end < start
    ensures InWindow(m, start, end) <==> !InWindow(m, end, start)
  {
  }

  /** With start == end the window is empty. */
  lemma EmptyWindow(m: int, t: int)
    ensures !InWindow(m, t, t)
  {
  }

  /** `getNextAlarmTime` as a specification: the first instant strictly after
      `now` whose time of day is `tod` minutes, with zero seconds and milliseconds;
      today's occurrence if it is still ahead, tomorrow's otherwise. */
  function NextOccurrence(now: int, tod: int): (r: int)
    requires 0 <= tod < MINUTES_PER_DAY
    ensures now < r <= now + DAY_MS
    ensures r % DAY_MS == tod * MINUTE_MS
  {
    var today := StartOfDay(now) + tod * MINUTE_MS;
    DayOffset(StartOfDay(now) / DAY_MS, tod * MINUTE_MS);
    DayOffset(StartOfDay(now) / DAY_MS + 1, tod * MINUTE_MS);
    if today <= now then today + DAY_MS else today
  }

  /** Division by the day length of an instant given as day number and offset. */
  lemma DayOffset(k: int, x: int)
    requires 0 <= x < DAY_MS
    ensures (k * DAY_MS + x) / DAY_MS == k && (k * DAY_MS + x) % DAY_MS == x
  {
  }

  /** Two instants less than a day apart with the same time of day are equal:
      so NextOccurrence is the only instant in (now, now + 1 day] at `tod`. */
  lemma NextOccurrenceUnique(now: int, tod: int, t: int)
    requires 0 <= tod < MINUTES_PER_DAY
    requires now < t <= now + DAY_MS && t % DAY_MS == tod * MINUTE_MS
    ensures t == NextOccurrence(now, tod)
  {
    var r := NextOccurrence(now, tod);
    var kt, kr := t / DAY_MS, r / DAY_MS;
    assert t == kt * DAY_MS + tod * MINUTE_MS;
    assert r == kr * DAY_MS + tod * MINUTE_MS;
    assert -DAY_MS < (kt - kr) * DAY_MS < DAY_MS;
    assert kt == kr;
  }

  /** The occurrence falls on the day of `now` exactly when today's `tod` is
      still ahead of `now`, and on the following day otherwise. */
  lemma NextOccurrenceDay(now: int, tod: int)
    requires 0 <= tod < MINUTES_PER_DAY
    ensures StartOfDay(NextOccurrence(now, tod)) ==
            if StartOfDay(now) + tod * MINUTE_MS > now then StartOfDay(now) else StartOfDay(now) + DAY_MS
  {
    var k := StartOfDay(now) / DAY_MS;
    DayOffset(k, tod * MINUTE_MS);
    DayOffset(k + 1, tod * MINUTE_MS);
  }

  /** An alarm set for `tod` and repeating every day fires, each time, at the
      minute `tod` of the local day, on a whole minute. */
  lemma RepeatingFireMinute(r: int, tod: int, k: nat)
    requires 0 <= tod < MINUTES_PER_DAY
    requires r % DAY_MS == tod * MINUTE_MS
    ensures MinuteOfDay(r + k * DAY_MS) == tod
    ensures (r + k * DAY_MS) % MINUTE_MS == 0
  {
    var q := r / DAY_MS + k;
    var t := r + k * DAY_MS;
    assert t == q * DAY_MS + tod * MINUTE_MS;
    assert t == (q * MINUTES_PER_DAY + tod) * MINUTE_MS;
    assert t / MINUTE_MS == q * MINUTES_PER_DAY + tod;
    assert t % MINUTE_MS == 0;
  }
}
