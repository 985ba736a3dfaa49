/** The pure helpers of the settings page js/locked-extensions.js: the window
    badge test, the 12-hour clock display of a rule's times, and the checks the
    "add lock" form makes before it asks the background to call setLock. */
module LockedExtensions {
  import opened Wrappers
  import opened Clock
  import LockScheduler

  // ---------------------------------------------------------------------------
  // Window badge

  /** `isCurrentlyInWindow`: the page's own copy of the window test, on the
      minute of the day `now` falls in. Equivalently, fewer minutes have passed
      since the window opened, counted round the clock, than the window lasts. */
  function IsCurrentlyInWindow(startTime: string, endTime: string, now: int): (inWindow: bool)
    requires IsValidTime(startTime) && IsValidTime(endTime)
    ensures var current, start, end := MinuteOfDay(now), ToMinutes(startTime), ToMinutes(endTime);
      inWindow <==> (current - start) % MINUTES_PER_DAY < (end - start) % MINUTES_PER_DAY
  {
    var currentMinutes := MinuteOfDay(now);
    var startMinutes := Hours(startTime) * 60 + Minutes(startTime);
    var endMinutes := Hours(endTime) * 60 + Minutes(endTime);
    InWindowByCyclicOffset(currentMinutes, startMinutes, endMinutes);
    if endMinutes < startMinutes then
      currentMinutes >= startMinutes || currentMinutes < endMinutes
    else
      currentMinutes >= startMinutes && currentMinutes < endMinutes
  }

  /** The page shows "in window" exactly when the lock engine lets the extension
      be turned off: for an enabled rule, the badge is the negation of isLocked. */
  lemma BadgeAgreesWithLockEngine(locks: map<string, LockScheduler.LockConfig>, extensionId: string, now: int)
    requires extensionId in locks && LockScheduler.ConfigWellFormed(locks[extensionId]) && locks[extensionId].enabled
    ensures IsCurrentlyInWindow(locks[extensionId].windowStart, locks[extensionId].windowEnd, now)
            <==> !LockScheduler.IsLocked(locks, extensionId, now)
  {
    var c := locks[extensionId];
    InWindowByCyclicOffset(MinuteOfDay(now), ToMinutes(c.windowStart), ToMinutes(c.windowEnd));
  }

  // ---------------------------------------------------------------------------
  // 12-hour display

  /** `hours % 12 || 12`: the hour on a 12-hour clock face. */
  function Hour12(hours: int): (h: int)
    requires 0 <= hours < 24
    ensures 1 <= h <= 12
    ensures h % 12 == hours % 12
  {
    if hours % 12 == 0 then 12 else hours % 12
  }

  function Period(hours: int): string {
    if hours >= 12 then "PM" else "AM"
  }

  /** `n.toString()` for 0 <= n < 100. */
  function DecimalString(n: int): (s: string)
    requires 0 <= n < 100
    ensures |s| == (if n < 10 then 1 else 2)
  {
    if n < 10 then [DigitChar(n)] else [DigitChar(n / 10), DigitChar(n % 10)]
  }

  /** `n.toString().padStart(2, '0')` for 0 <= n < 100. */
  function PadTwo(n: int): (s: string)
    requires 0 <= n < 100
    ensures |s| == 2 && IsDigit(s[0]) && IsDigit(s[1])
    ensures 10 * DigitValue(s[0]) + DigitValue(s[1]) == n
  {
    [DigitChar(n / 10), DigitChar(n % 10)]
  }

  /** `formatTime`: a stored `H:MM`/`HH:MM` time as `h:MM AM` or `h:MM PM`. */
  function FormatTime(time24: string): (display: string)
    requires IsValidTime(time24)
    ensures |display| == 7 || |display| == 8
    ensures display[|display| - 6] == ':' && display[|display| - 3] == ' '
    ensures display[|display| - 2..] == (if Hours(time24) >= 12 then "PM" else "AM")
    ensures IsDigit(display[|display| - 5]) && IsDigit(display[|display| - 4])
    ensures 10 * DigitValue(display[|display| - 5]) + DigitValue(display[|display| - 4]) == Minutes(time24)
  {
    var hours, minutes := Hours(time24), Minutes(time24);
    DecimalString(Hour12(hours)) + ":" + PadTwo(minutes) + " " + Period(hours)
  }

  /** Midnight is shown as 12 AM and noon as 12 PM. */
  lemma MidnightAndNoon(minutes: string)
    requires |minutes| == 2 && '0' <= minutes[0] <= '5' && IsDigit(minutes[1])
    ensures FormatTime("00:" + minutes) == "12:" + minutes + " AM"
    ensures FormatTime("12:" + minutes) == "12:" + minutes + " PM"
  {
    var midnight, noon := "00:" + minutes, "12:" + minutes;
    assert IsValidTime(midnight) && Hours(midnight) == 0 && Minutes(midnight) == 10 * DigitValue(minutes[0]) + DigitValue(minutes[1]);
    assert IsValidTime(noon) && Hours(noon) == 12 && Minutes(noon) == Minutes(midnight);
    assert PadTwo(Minutes(midnight)) == minutes;
  }

  /** The hour of a `h:MM AM`/`h:MM PM` display, 1 to 12 without a leading zero. */
  function ParseHour12(s: string): Option<int> {
    if |s| == 1 && '1' <= s[0] <= '9' then Some(DigitValue(s[0]))
    else if |s| == 2 && s[0] == '1' && '0' <= s[1] <= '2' then Some(10 + DigitValue(s[1]))
    else None
  }

  /** Reads a display back as a time of day: the inverse of formatTime. */
  function ParseDisplayTime(s: string): Option<int> {
    if |s| < 7 || |s| > 8 then None
    else
      var n := |s| - 6;
      var hour, rest := ParseHour12(s[..n]), s[n..];
      if && hour.Some? && rest[0] == ':' && '0' <= rest[1] <= '5' && IsDigit(rest[2]) && rest[3] == ' '
         && (rest[4..] == "AM" || rest[4..] == "PM")
      then
        var hours := hour.value % 12 + (if rest[4..] == "PM" then 12 else 0);
        Some(hours * 60 + 10 * DigitValue(rest[1]) + DigitValue(rest[2]))
      else None
  }

  /** The display loses nothing: it reads back as the time of day it shows. */
  lemma FormatTimeRoundTrip(time24: string)
    requires IsValidTime(time24)
    ensures ParseDisplayTime(FormatTime(time24)) == Some(ToMinutes(time24))
  {
    var hours, minutes := Hours(time24), Minutes(time24);
    var h12 := DecimalString(Hour12(hours));
    var rest := ":" + PadTwo(minutes) + " " + Period(hours);
    var display := FormatTime(time24);
    assert display == h12 + rest;
    assert display[..|h12|] == h12 && display[|h12|..] == rest;
    assert ParseHour12(h12) == Some(Hour12(hours));
    assert rest[4..] == Period(hours);
    assert Hour12(hours) % 12 + (if hours >= 12 then 12 else 0) == hours;
  }

  lemma DigitCharOfValue(c: char)
    requires IsDigit(c)
    ensures DigitChar(DigitValue(c)) == c
  {
  }

  /** A parsed hour is spelled as `toString` spells it. */
  lemma ParsedHourSpelling(t: string)
    requires ParseHour12(t).Some?
    ensures 1 <= ParseHour12(t).value <= 12
    ensures DecimalString(ParseHour12(t).value) == t
  {
    DigitCharOfValue(t[0]);
    if |t| == 2 {
      DigitCharOfValue(t[1]);
    }
  }

  /** Two minute digits are spelled as `padStart` spells their value. */
  lemma MinuteSpelling(a: char, b: char)
    requires '0' <= a <= '5' && IsDigit(b)
    ensures 0 <= 10 * DigitValue(a) + DigitValue(b) < 60
    ensures PadTwo(10 * DigitValue(a) + DigitValue(b)) == [a, b]
  {
    DigitCharOfValue(a);
    DigitCharOfValue(b);
  }

  /** The hours and minutes of the `HH:MM` spelling of a time of day. */
  lemma TimeStringParts(hours: int, minutes: int)
    requires 0 <= hours < 24 && 0 <= minutes < 60
    ensures IsValidTime(TimeString(hours * 60 + minutes))
    ensures Hours(TimeString(hours * 60 + minutes)) == hours
    ensures Minutes(TimeString(hours * 60 + minutes)) == minutes
  {
    var m := hours * 60 + minutes;
    assert m / 60 == hours && m % 60 == minutes;
    TimeStringRoundTrip(m);
    var t := TimeString(m);
    assert Hours(t) == 10 * (hours / 10) + hours % 10;
    assert Minutes(t) == 10 * (minutes / 10) + minutes % 10;
  }

  /** A display that reads back splits into the hour as formatTime spells it and
      the rest as formatTime spells it. */
  lemma DisplayParts(s: string) returns (hours: int, minutes: int)
    requires ParseDisplayTime(s).Some?
    ensures 0 <= hours < 24 && 0 <= minutes < 60
    ensures ParseDisplayTime(s).value == hours * 60 + minutes
    ensures s == DecimalString(Hour12(hours)) + (":" + PadTwo(minutes) + " " + Period(hours))
  {
    var n := |s| - 6;
    var hourText, rest := s[..n], s[n..];
    var h := ParseHour12(hourText).value;
    ParsedHourSpelling(hourText);
    MinuteSpelling(rest[1], rest[2]);
    hours := h % 12 + (if rest[4..] == "PM" then 12 else 0);
    minutes := 10 * DigitValue(rest[1]) + DigitValue(rest[2]);
    assert Hour12(hours) == h;
    assert Period(hours) == rest[4..];
    assert rest == ":" + [rest[1], rest[2]] + " " + rest[4..];
    assert s == hourText + rest;
  }

  /** Every display that reads back as a time is the one formatTime gives for it:
      the display format has a single spelling per time of day. */
  lemma ParseDisplayTimeUnique(s: string)
    requires ParseDisplayTime(s).Some?
    ensures FormatTime(TimeString(ParseDisplayTime(s).value)) == s
  {
    var hours, minutes := DisplayParts(s);
    TimeStringParts(hours, minutes);
  }

  // ---------------------------------------------------------------------------
  // The "add lock" form

  /** Why the form refuses to send a setLock request. */
  datatype AddLockError = NoExtensionSelected | MissingTime | SameTimes

  /** The checks at the top of `addLock`, in their order: an extension must be
      chosen, both times must be filled in, and they must differ as strings. */
  function CheckAddLock(extensionId: string, windowStart: string, windowEnd: string): (r: Outcome<AddLockError>)
    ensures r.Pass? <==> extensionId != "" && windowStart != "" && windowEnd != "" && windowStart != windowEnd
    ensures r == Fail(NoExtensionSelected) <==> extensionId == ""
  {
    if extensionId == "" then Fail(NoExtensionSelected)
    else if windowStart == "" || windowEnd == "" then Fail(MissingTime)
    else if windowStart == windowEnd then Fail(SameTimes)
    else Pass
  }

  /** For times as a time input gives them (`HH:MM`), a request the form lets
      through never sets up a rule that is locked all day: its window holds at
      least its own opening minute. */
  lemma AddLockWindowNonEmpty(extensionId: string, windowStart: string, windowEnd: string)
    requires CheckAddLock(extensionId, windowStart, windowEnd).Pass?
    requires IsValidTime(windowStart) && |windowStart| == 5 && IsValidTime(windowEnd) && |windowEnd| == 5
    ensures ToMinutes(windowStart) != ToMinutes(windowEnd)
    ensures InWindow(ToMinutes(windowStart), ToMinutes(windowStart), ToMinutes(windowEnd))
  {
    TimeStringUnique(windowStart);
    TimeStringUnique(windowEnd);
  }

  /** The form compares strings, not times: `7:00` and `07:00` pass it and name
      the same minute, and setLock, which does not compare the two, would store
      a rule whose extension is locked all day. */
  lemma SameMinuteSpelledTwice(now: int)
    ensures CheckAddLock("ext", "7:00", "07:00").Pass?
    ensures LockScheduler.CheckSetLock(None, "7:00", "07:00", true, now).Success?
    ensures var stored := LockScheduler.CheckSetLock(None, "7:00", "07:00", true, now).value;
      LockScheduler.IsLocked(map["ext" := stored], "ext", now)
  {
    var stored := LockScheduler.CheckSetLock(None, "7:00", "07:00", true, now).value;
    assert ToMinutes("7:00") == ToMinutes("07:00") == 420;
    LockScheduler.SameTimesAlwaysLocked(map["ext" := stored], "ext", now);
  }
}
