# Extensity daily lock windows, in Dafny

This project models the time-window lock engine of the Extensity browser extension and proves properties of it.

A *lock* on an extension lets the user turn the extension off only inside a daily window `[windowStart, windowEnd)`. The window may cross midnight. Two daily alarms, `<id>_window_start` and `<id>_window_end`, drive the engine. When the window closes, the engine turns the extension back on if it is off. A lock may be changed at most once every 24 hours.

The variant in `js/time-scheduler.js` works differently:

- Its rules turn an extension off at `disableTime` and on at `enableTime`.
- Its alarms are named `disable_<id>` and `enable_<id>`.
- A rule may be changed once per calendar day.

From the settings page, the model covers:

- the window badge test;
- the 12-hour time display;
- the checks of the "add lock" form.

Modules:

- `Wrappers`: `Option`, `Result` and `Outcome`.
- `Clock`: time handling.
  - Instants are integer milliseconds.
  - Every day is exactly 1440 minutes; local midnight is a multiple of `DAY_MS`.
  - Also holds the `H:MM`/`HH:MM` time format, the window test on minutes of the day, and the "next occurrence" of a time of day.
- `Strings`: the JavaScript string operations used to decode alarm names: `endsWith`, the first-occurrence `replace`, and `split`.
- `Chrome`: the browser services, as plain state.
  - `Storage<V>` holds the rule dictionary.
  - `Alarms` holds the alarm registry.
  - `Management` holds the installed extensions' enabled flags and a log of `setEnabled` calls.
  - `Notifications` holds the log of created notification ids.
- `LockScheduler` (`js/lock-scheduler.js`):
  - the rule table and the 24-hour lockout;
  - the alarm names and their decoding;
  - the alarm schedule;
  - `initialize`, `setLock`, `removeLock` and the alarm handlers.
- `TimeScheduler` (`js/time-scheduler.js`):
  - the calendar-day lockout;
  - `disable_`/`enable_` alarms, `initialize` and `updateTimeRule`;
  - `deleteRule`, `toggleExtension` and `handleAlarm`.
- `LockedExtensions` (`js/locked-extensions.js`): `isCurrentlyInWindow`, `formatTime` and the input checks of `addLock`.

The alarm registry that `initialize` builds is specified by a predicate: `IsLockSchedule` in `LockScheduler` and `IsTimeSchedule` in `TimeScheduler`.

`IsLockSchedule` says two things:

- the registered names are exactly the two names of each enabled rule;
- each alarm fires at the next occurrence of its time of day after `now` and repeats every 1440 minutes.

`IsTimeSchedule` says two things:

- the registered names are exactly those of the enabled rules' times whose first two `:`-fields are numbers;
- each alarm is at its time's `RuleAlarm` instant and repeats every 1440 minutes. That instant is the next occurrence of the time after `now` only for `H:MM`/`HH:MM` times.

The `Chrome` classes are the browser APIs as the schedulers use them; each API call the schedulers make (`set`, `get`, `setEnabled`, `create`, `clear`, `clearAll`) has a row below. The `*Scenario` methods in `LockScheduler` and `TimeScheduler` are worked examples of the model on concrete rules; they state their outcomes as assertions and have no row.

Lemmas prove the following about these predicates:

- They determine the registry, so running `initialize` twice on the same state gives the same registry.
- Every alarm they allow fires after `now` and repeats every 1440 minutes.
- Every lock alarm, and every time-rule alarm whose time is `H:MM`/`HH:MM`, first fires at most a day after `now`.
- `setLock`, `removeLock` and `deleteRule` preserve them.

## Behaviour of the code that the model keeps

- **Equal start and end times.** The settings form refuses a window whose start equals its end (`js/locked-extensions.js:176-179`), so an empty window is evidently not meant to be stored. But the form compares the two strings, and `setLock` does not compare the times at all (`js/lock-scheduler.js:93-96` checks only the format).
  - `LockedExtensions.SameMinuteSpelledTwice` shows that `7:00` and `07:00` pass both checks.
  - The stored rule then has an empty window, so its extension is locked all day.
- **Order of the checks.** `setLock` checks the 24-hour lockout before the format (`js/lock-scheduler.js:81-96`). So a malformed request made during the lockout reports the lockout.
- **Loose rule times.** `updateTimeRule` stores its times unchecked (`js/time-scheduler.js:18-33`), and `scheduleExtensionAlarms` reads any time whose first two `:`-fields are numbers (`js/time-scheduler.js:50-58`). `setHours` carries hours past 23 and minutes past 59 into the following days.
  - `TimeScheduler.RolledOverTimeBeyondDay`: at 00:30, `25:00` fires at 01:00 the next day, more than a day ahead.
  - `TimeScheduler.OneDigitMinutesScheduled`, `SecondsFieldIgnored` and `EmptyMinutesField`: `7:5` fires at 07:05, `07:00:00` and `7:` at 07:00; `7` schedules nothing.
  - So the one-day bound on the first firing holds only for `H:MM`/`HH:MM` times.

## Model

| member | source | states |
|---|---|---|
| Clock.IsValidTime | js/lock-scheduler.js:272-275 | A valid time is four or five characters: one `:` three places from the end, digits everywhere else (hour 0-23, minute 00-59) |
| Clock.ParseTime | js/lock-scheduler.js:272-275 | A string parses exactly when it has the `H:MM`/`HH:MM` shape with hour 0-23 and minute 00-59; it then names a minute of the day in 0..1439 and is that minute's zero-padded `HH:MM` spelling, or that spelling without its leading `0` |
| Clock.TimeStringRoundTrip | js/lock-scheduler.js:272-275 | Every minute of the day has a valid `HH:MM` spelling that reads back as that minute |
| Clock.TimeStringUnique | js/lock-scheduler.js:272-275 | A valid `HH:MM` is the one zero-padded spelling of its minute and a valid `H:MM` is that spelling without the `0`, so distinct `HH:MM` strings name distinct minutes |
| Clock.InWindow | js/lock-scheduler.js:66-71 | The half-open window `[start, end)` on minutes of the day; when end is before start it wraps round midnight to `[start, 1440)` plus `[0, end)` |
| Clock.MinuteOfDay | js/lock-scheduler.js:57-58 | The current minute of the day is in 0..1439 |
| Clock.InWindowByCyclicOffset | js/lock-scheduler.js:66-71 | The window test (plain or crossing midnight) holds iff the minutes since the window opened, counted round the clock, are fewer than the window's length |
| Clock.WrappingWindowIsComplement | js/lock-scheduler.js:67-69 | A window crossing midnight is exactly the complement of the window from its end to its start |
| Clock.EmptyWindow | js/lock-scheduler.js:71 | With start equal to end no minute is in the window |
| Clock.NextOccurrence | js/lock-scheduler.js:182-195 | The next alarm time is strictly after now, at most one day later, and its time of day is the requested one with zero seconds and milliseconds |
| Clock.NextOccurrenceUnique | js/lock-scheduler.js:182-195 | It is the only instant in (now, now + 1 day] at that time of day |
| Clock.NextOccurrenceDay | js/lock-scheduler.js:187-192 | It falls today when today's occurrence is still ahead of now, and tomorrow otherwise |
| Clock.RepeatingFireMinute | js/lock-scheduler.js:162-172 | A daily alarm at a time of day fires, at every repetition, on that minute of the local day, on a whole minute |
| Chrome.Storage.Set | js/lock-scheduler.js:113 | Writing the dictionary back replaces the stored dictionary with exactly the one written |
| Chrome.Management.Get | js/lock-scheduler.js:99 | Gives the enabled flag exactly for an installed extension, and nothing for an unknown id |
| Chrome.Notifications.Create | js/lock-scheduler.js:226-231 | Creating a notification appends exactly its id to the log |
| Chrome.Alarms.Create | js/lock-scheduler.js:162-165 | Creating an alarm registers it under its name, replacing any alarm of that name |
| Chrome.Alarms.Clear | js/lock-scheduler.js:132-133 | Clearing removes only that name; clearing an unknown name changes nothing |
| Chrome.Alarms.ClearAll | js/lock-scheduler.js:26 | Clearing all empties the registry |
| Chrome.Management.SetEnabled | js/lock-scheduler.js:101 | Sets one installed extension's flag and logs the call |
| LockScheduler.GetLock | js/lock-scheduler.js:149-152 | Gives the entry exactly when the extension has one, and then that entry |
| LockScheduler.IsInWindow | js/lock-scheduler.js:56-72 | Now is in the window iff the minutes since the window opened, counted round the clock, are fewer than the window's length |
| LockScheduler.IsLocked | js/lock-scheduler.js:41-51 | Only an extension with an enabled rule can be locked |
| LockScheduler.LockedOutsideWindow | js/lock-scheduler.js:41-51 | An extension is locked iff it has an enabled rule and now is outside that rule's window, with the window given by its cyclic-offset form |
| LockScheduler.SameTimesAlwaysLocked | js/lock-scheduler.js:66-71 | An enabled rule with equal start and end time is locked at every instant |
| LockScheduler.ScenarioWindows | js/lock-scheduler.js:56-72 | 21:00-23:00 is open at 22:00 and locked at 20:00; 23:00-06:00 crosses midnight, open at 02:00 and locked at 12:00 |
| LockScheduler.CanChange | js/lock-scheduler.js:81-91 | A change is refused exactly when the entry has a recorded change and fewer than 24 hours have passed since it |
| LockScheduler.TimeUntilChangeAllowed | js/lock-scheduler.js:280-289 | The remaining wait is never negative |
| LockScheduler.CheckSetLock | js/lock-scheduler.js:81-111 | Fails with the lockout error exactly when the entry was changed under 24 hours ago, whatever the times. Otherwise it fails with the format error exactly when a time is malformed. On success the entry is exactly the two times, stamped now, enabled, with the notify flag |
| LockScheduler.WaitPositiveIffLockedOut | js/lock-scheduler.js:280-289 | The reported wait is positive exactly when setLock fails with the lockout error, and it equals the wait that error carries |
| LockScheduler.LockoutLastsOneDay | js/lock-scheduler.js:81-91 | After a successful setLock, every setLock in the next 24 hours fails with the lockout, carrying the exact remaining wait, and none fails with it afterwards |
| LockScheduler.LastChangedIncreases | js/lock-scheduler.js:82-108 | A successful change of an entry is stamped at least a day after the previous stamp |
| LockScheduler.AlarmNamesDistinct | js/lock-scheduler.js:162-172 | Distinct extensions own distinct alarm names, and start names never equal end names |
| Strings.ReplaceFirst | js/lock-scheduler.js:204 | Removing the first occurrence of a suffix the string ends with shortens it by exactly that suffix |
| LockScheduler.ParseAlarmName | js/lock-scheduler.js:200-210 | A name decodes exactly when it ends in `_window_start` or `_window_end`, to the phase of that suffix, with an id one suffix shorter than the name |
| LockScheduler.ParseAlarmNameRoundTrip | js/lock-scheduler.js:200-210 | handleAlarm's decoding recovers the extension and the phase from each name the scheduler creates (ids without `_`) |
| LockScheduler.GetNextAlarmTime | js/lock-scheduler.js:182-195 | The date arithmetic (today at HH:MM, plus one day when not after now) gives the next occurrence: strictly after now and within a day |
| LockScheduler.LockScheduleUnique | js/lock-scheduler.js:21-36 | The schedule predicate determines the registry, so initialize is idempotent for a given state and instant |
| LockScheduler.LockScheduleBounds | js/lock-scheduler.js:157-177 | Every scheduled alarm first fires in (now, now + 1 day] and repeats every 1440 minutes |
| LockScheduler.LockAlarmNamesPut | js/lock-scheduler.js:104-116 | Storing an enabled rule adds exactly its two alarm names |
| LockScheduler.LockAlarmNamesPutDisabled | js/lock-scheduler.js:29-33 | A disabled rule contributes no alarm name |
| LockScheduler.LockAlarmNamesRemove | js/lock-scheduler.js:125-136 | Deleting a rule removes exactly its two alarm names |
| LockScheduler.WindowAlarmsPut | js/lock-scheduler.js:115-116 | Scheduling one rule's alarms leaves every other rule's alarms in place |
| LockScheduler.WindowAlarmsRemove | js/lock-scheduler.js:131-133 | Clearing one rule's alarms leaves every other rule's alarms in place |
| LockScheduler.LockScheduleAfterSet | js/lock-scheduler.js:104-116 | setLock on a registry that matches initialize leaves one that matches initialize on the new table |
| LockScheduler.LockScheduleAfterDisabledAdd | js/lock-scheduler.js:29-33 | Skipping a disabled rule keeps the registry matching initialize |
| LockScheduler.LockScheduleAfterRemove | js/lock-scheduler.js:125-136 | removeLock keeps the registry matching initialize on the remaining rules |
| LockScheduler.AlarmsFireAtWindowEdges | js/lock-scheduler.js:157-172 | At every firing of the end alarm the extension is locked; at every firing of the start alarm it is not, unless the window is empty |
| LockScheduler.ScheduleWindowAlarms | js/lock-scheduler.js:157-177 | Creates both named alarms at their next occurrences with a 1440-minute period, and changes no other alarm |
| LockScheduler.Initialize | js/lock-scheduler.js:21-36 | After clearing all alarms and looping over the rules, the registry is exactly the two alarms of each enabled rule, at their next occurrences |
| LockScheduler.SetLock | js/lock-scheduler.js:77-120 | Failures (lockout first, then format, then unknown extension) change nothing. On success, an off extension is turned on (one setEnabled call), exactly the new entry is stored under the id and other keys stay unchanged, both alarms are recreated, and the valid-times invariant and the initialize schedule are kept |
| LockScheduler.RemoveLock | js/lock-scheduler.js:125-136 | Deletes only that key and clears only its two alarm names (nothing changes without an entry); keeps the invariant and the alarm-name set |
| LockScheduler.WindowEndSettles | js/lock-scheduler.js:242-267 | After the close handler an enabled rule's installed extension is on, other extensions are unchanged, and a second firing has nothing to do |
| LockScheduler.OnWindowStart | js/lock-scheduler.js:215-237 | Creates one notification exactly when the rule exists, is enabled and asks for it, and the extension is installed; changes nothing else |
| LockScheduler.OnWindowEnd | js/lock-scheduler.js:242-267 | Turns an enabled rule's installed extension on when it is off, with one setEnabled call and one notification, and otherwise does nothing |
| LockScheduler.HandleAlarm | js/lock-scheduler.js:200-210 | Dispatches `_window_start` names to the open handler and `_window_end` names to the close handler; other names change nothing |
| TimeScheduler.CanEditRule | js/time-scheduler.js:10-15 | An edit is refused exactly when the rule exists and now falls in the calendar day of its last change |
| TimeScheduler.Today | js/time-scheduler.js:7 | Today is the day number whose 24 hours contain now |
| TimeScheduler.EditLockedUntilNextDay | js/time-scheduler.js:10-31 | After an update the rule can be edited again iff the calendar day has changed, so a second update the same day fails |
| TimeScheduler.CalendarLockoutWithinDay | js/time-scheduler.js:10-15 | Whenever 24 hours have passed since the change, canEditRule holds, so the calendar-day lockout never outlasts the 24-hour one |
| TimeScheduler.CalendarLockoutCanBeShort | js/time-scheduler.js:10-15 | A change at 23:59 can be followed by another at 00:00 |
| TimeScheduler.AlarmNamesDistinct | js/time-scheduler.js:60-75 | Disable and enable names never collide, and each determines its extension |
| TimeScheduler.ParseActionAlarm | js/time-scheduler.js:94-101 | A name asks for an action exactly when its first `_`-field is `disable` or `enable` and it has a second field; the action enables iff the first field is `enable`, and the id is the second field |
| TimeScheduler.ParseActionAlarmRoundTrip | js/time-scheduler.js:94-101 | `split('_')` decoding recovers the action and the extension from each name the scheduler creates (ids without `_`) |
| TimeScheduler.ForeignNameIgnored | js/time-scheduler.js:94-101 | A name whose first field is neither `disable` nor `enable` asks for nothing |
| TimeScheduler.LockAlarmNamesIgnored | js/time-scheduler.js:94-101 | The lock engine's `<id>_window_start`/`<id>_window_end` names ask this handler for nothing, for ids without `_` other than `disable` and `enable` |
| TimeScheduler.TimeFields | js/time-scheduler.js:50-51 | `split(':').map(Number)` gives hours and minutes only when the time has a `:` |
| TimeScheduler.ValidTimeFields | js/time-scheduler.js:50-51 | On an `H:MM`/`HH:MM` time the two fields read are the hours and minutes the format names |
| TimeScheduler.FireTime | js/time-scheduler.js:54-58 | `setHours` then one more day when not after now: the instant is after now, on a whole minute, at the minute of the day the fields name round the clock, and for an in-range time it is the next occurrence of that time |
| TimeScheduler.RuleAlarm | js/time-scheduler.js:48-75 | A rule time gives an alarm iff its first two fields are numbers; the alarm fires after now on the minute those fields name round the clock and repeats every 1440 minutes; for an `H:MM`/`HH:MM` time it is the next occurrence, within a day |
| TimeScheduler.RolledOverTimeBeyondDay | js/time-scheduler.js:50-58 | At 00:30, the rule time `25:00` first fires at 01:00 the next day, more than a day ahead |
| TimeScheduler.OneDigitMinutesScheduled | js/time-scheduler.js:50-58 | `7:5` fires at 07:05 |
| TimeScheduler.SecondsFieldIgnored | js/time-scheduler.js:50-58 | An `H:MM`/`HH:MM` time followed by more `:`-fields, such as `07:00:00`, gets the same alarm as the time alone |
| TimeScheduler.EmptyMinutesField | js/time-scheduler.js:50-58 | `7:` fires at 07:00, an empty field reading as 0, and `7` schedules nothing |
| TimeScheduler.NextFireTime | js/time-scheduler.js:50-58 | The date steps give an instant exactly when the time's fields are numbers; that instant is the rule alarm's, so for an `H:MM`/`HH:MM` time it is the next occurrence of the time |
| TimeScheduler.ScheduleExtensionAlarms | js/time-scheduler.js:48-78 | Creates the `disable_`/`enable_` alarm of each of the rule's times that has numeric fields, at that time's rule-alarm instant, and touches no other alarm |
| TimeScheduler.TimeScheduleUnique | js/time-scheduler.js:81-91 | The schedule predicate determines the registry, so calling initialize twice yields the same alarms |
| TimeScheduler.TimeScheduleBounds | js/time-scheduler.js:48-75 | Every scheduled alarm first fires after now and repeats every 1440 minutes; each enabled rule's `H:MM`/`HH:MM` times have an alarm that first fires at most a day after now |
| TimeScheduler.TimeAlarmNamesAdd | js/time-scheduler.js:85-89 | A rule for a new extension adds exactly the names it contributes |
| TimeScheduler.TimeAlarmNamesRemove | js/time-scheduler.js:110-116 | Deleting a rule removes exactly its two names |
| TimeScheduler.WithRuleAlarmsKeys | js/time-scheduler.js:48-75 | Scheduling an enabled rule adds exactly its names to the registry |
| TimeScheduler.RuleAlarmsAdd | js/time-scheduler.js:85-89 | Scheduling a new rule keeps every other rule's alarms and gives the new rule its own |
| TimeScheduler.TimeScheduleAfterAdd | js/time-scheduler.js:85-89 | One loop step of initialize keeps the registry matching the rules seen so far |
| TimeScheduler.TimeScheduleAfterRemove | js/time-scheduler.js:110-116 | deleteRule keeps the registry matching initialize on the remaining rules |
| TimeScheduler.Initialize | js/time-scheduler.js:81-91 | After clearing and looping, the alarm set is exactly the `disable_`/`enable_` alarms of the enabled rules' schedulable times, at their rule-alarm instants (the next occurrences for `H:MM`/`HH:MM` times) |
| TimeScheduler.UpdateTimeRule | js/time-scheduler.js:18-33 | Fails iff canEditRule is false, and then changes nothing. Otherwise it stores exactly the rule stamped today under that id and rebuilds the schedule |
| TimeScheduler.DeleteRule | js/time-scheduler.js:110-116 | Removes only that key and clears only its two alarm names, keeping the alarm-name set in step with the rules |
| TimeScheduler.ToggleSettles | js/time-scheduler.js:36-45 | After a toggle the installed extension is in the requested state, others are unchanged, and toggling again does nothing |
| TimeScheduler.ToggleExtension | js/time-scheduler.js:36-45 | setEnabled is called once exactly when the extension is installed and its state differs, and never otherwise |
| TimeScheduler.HandleAlarm | js/time-scheduler.js:94-101 | `disable_<id>` toggles to off, `enable_<id>` toggles to on, and any other name changes nothing |
| LockedExtensions.IsCurrentlyInWindow | js/locked-extensions.js:127-142 | The page's window test holds iff the minutes since the window opened, counted round the clock, are fewer than the window's length |
| LockedExtensions.BadgeAgreesWithLockEngine | js/locked-extensions.js:127-142 | For an enabled rule the page shows "in window" exactly when the lock engine says the extension is not locked |
| LockedExtensions.Hour12 | js/locked-extensions.js:148 | The 12-hour clock hour is in 1..12 and agrees with the hour modulo 12 |
| LockedExtensions.PadTwo | js/locked-extensions.js:149 | Minutes are rendered as exactly two digits that read back as the minutes |
| LockedExtensions.FormatTime | js/locked-extensions.js:145-150 | The display has 7 or 8 characters, ends in PM iff the hour is 12 or more, and shows the minutes as two digits |
| LockedExtensions.MidnightAndNoon | js/locked-extensions.js:147-148 | Hour 0 is shown as 12 AM and hour 12 as 12 PM |
| LockedExtensions.FormatTimeRoundTrip | js/locked-extensions.js:145-150 | The display reads back as the time of day it shows |
| LockedExtensions.ParseDisplayTimeUnique | js/locked-extensions.js:145-150 | Each readable display is the display of the time it reads as, so the format has one spelling per time |
| LockedExtensions.CheckAddLock | js/locked-extensions.js:166-179 | The form passes iff an extension is chosen, both times are filled in, and they differ as strings; a missing extension is reported first |
| LockedExtensions.AddLockWindowNonEmpty | js/locked-extensions.js:176-179 | For `HH:MM` inputs, a request that passes names two different minutes, so the window holds at least its opening minute |
| LockedExtensions.SameMinuteSpelledTwice | js/locked-extensions.js:176-179 | `7:00` and `07:00` pass the form and setLock's checks, yet the stored rule is locked all day |

## Left out

- `js/background.js` is not part of this model. It routes runtime messages and alarm events to the operations modelled here.
- The settings page's DOM, dialogs and message texts are not modelled. `getAllLocks`, `getLock` and `getAllRules` are direct reads of the dictionary held in `Storage.items`.
- Browser API behaviour:
  - The asynchrony and transient failures of the Chrome APIs are not modelled.
  - Nor is cross-device sync of `chrome.storage.sync`.
  - Nor is the interleaving of events.
  - Every call takes effect at once, in program order.
- Time zones, daylight saving and the calendar:
  - Every day has exactly 1440 minutes, and local midnight is a multiple of `DAY_MS`.
  - `getTodayString` uses the UTC date while alarms use local hours. The model uses one time scale for both.
  - The `YYYY-MM-DD` string is modelled as the day number it names.
  - Each operation reads the clock once, as `now`. The source calls `new Date()` several times within one operation, and the few milliseconds between those calls are ignored.
- Console output, notification titles and notification messages are not modelled. The model keeps only the notification ids.
- LockScheduler.CheckSetLock: the lockout error carries the wait in milliseconds. The source puts only the wait, rounded up to whole hours, into the error's message text.
- LockScheduler.TimeUntilChangeAllowed: gives the wait in milliseconds. The source gives fractional hours, which is the same quantity divided by 3,600,000. The `Math.ceil` rounding in the error text is left out. `lastChanged` is modelled as the instant in milliseconds, not as its ISO 8601 string.
- TimeScheduler.TimeFields: reads a field as a number only when it is empty or made of decimal digits. JavaScript's `Number` also reads signs, surrounding spaces, fractions, exponents and `0x` prefixes; such times create no alarm in the model. In the source, a time without `:` or with a field `Number` cannot read gives `NaN` and an invalid `when`, and what the browser does with that is outside the code.
- TimeScheduler.FireTime: instants are unbounded. A field so large that the date leaves the JavaScript `Date` range (8.64e15 ms from 1970) gives an invalid date in the source.
- LockedExtensions.FormatTime: requires a valid time, and so does LockedExtensions.IsCurrentlyInWindow. Their callers pass only stored rule times, which `setLock` has validated. Malformed input, which would display `NaN`, is not modelled.
- The alarm-name round trips (`ParseAlarmNameRoundTrip`, `ParseActionAlarmRoundTrip`) are proved for extension ids without `_`. Browser extension ids are 32 letters `a`-`p`.
