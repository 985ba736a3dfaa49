/** The extension lock engine of js/lock-scheduler.js.

    A locked extension may be turned off only inside its daily window
    [windowStart, windowEnd); outside it the engine turns the extension back on
    when the window-close alarm fires. The rule table lives in
    chrome.storage.local under `lockedExtensions`; each locked extension owns the
    two daily alarms `<id>_window_start` and `<id>_window_end`. */
module LockScheduler {
  import opened Wrappers
  import opened Clock
  import opened Strings
  import opened Chrome

  const START_SUFFIX := "_window_start"
  const END_SUFFIX := "_window_end"
  const WINDOW_START_NOTICE := "window_start_"
  const WINDOW_END_NOTICE := "window_end_"

  /** One entry of the rule table. `lastChanged` is the instant of the last
      successful setLock; None stands for an entry without one. */
  datatype LockConfig = LockConfig(
    windowStart: string,
    windowEnd: string,
    lastChanged: Option<int>,
    enabled: bool,
    notifyOnWindowOpen: bool)

  /** The errors setLock throws. */
  datatype LockError =
    | LockoutActive(waitMs: int)
    | InvalidTimeFormat
    | ExtensionNotFound

  predicate ConfigWellFormed(c: LockConfig) {
    IsValidTime(c.windowStart) && IsValidTime(c.windowEnd)
  }

  /** Every entry's times are valid, as setLock, the only writer, ensures. */
  predicate WellFormed(locks: map<string, LockConfig>) {
    forall id :: id in locks ==> ConfigWellFormed(locks[id])
  }

  /** `getLock`: the entry for `extensionId`, or null. */
  function GetLock(locks: map<string, LockConfig>, extensionId: string): (r: Option<LockConfig>)
    ensures r.Some? <==> extensionId in locks
    ensures r.Some? ==> r.value == locks[extensionId]
  {
    if extensionId in locks then Some(locks[extensionId]) else None
  }

  // ---------------------------------------------------------------------------
  // Window and lock state

  /** `isInWindow`: the current time of day lies in the window, that is, fewer
      minutes have passed since the window opened, counted round the clock, than
      the window lasts. */
  function IsInWindow(windowStart: string, windowEnd: string, now: int): (inside: bool)
    requires IsValidTime(windowStart) && IsValidTime(windowEnd)
    ensures inside <==> (MinuteOfDay(now) - ToMinutes(windowStart)) % MINUTES_PER_DAY
                        < (ToMinutes(windowEnd) - ToMinutes(windowStart)) % MINUTES_PER_DAY
  {
    InWindowByCyclicOffset(MinuteOfDay(now), ToMinutes(windowStart), ToMinutes(windowEnd));
    InWindow(MinuteOfDay(now), ToMinutes(windowStart), ToMinutes(windowEnd))
  }

  /** `isLocked`: the extension may not be disabled now. Only an extension with
      an enabled rule is ever locked. */
  function IsLocked(locks: map<string, LockConfig>, extensionId: string, now: int): (locked: bool)
    requires extensionId in locks ==> ConfigWellFormed(locks[extensionId])
    ensures locked ==> extensionId in locks && locks[extensionId].enabled
  {
    match GetLock(locks, extensionId)
    case None => false
    case Some(c) => c.enabled && !IsInWindow(c.windowStart, c.windowEnd, now)
  }

  /** An extension is locked exactly when it has an enabled rule and the minutes
      since its window last opened, counted round the clock, are at least the
      window's length: the lock covers the rest of the day. */
  lemma LockedOutsideWindow(locks: map<string, LockConfig>, extensionId: string, now: int)
    requires extensionId in locks ==> ConfigWellFormed(locks[extensionId])
    ensures IsLocked(locks, extensionId, now) <==>
      && extensionId in locks && locks[extensionId].enabled
      && var start, end := ToMinutes(locks[extensionId].windowStart), ToMinutes(locks[extensionId].windowEnd);
         (MinuteOfDay(now) - start) % MINUTES_PER_DAY >= (end - start) % MINUTES_PER_DAY
  {
    if extensionId in locks {
      var c := locks[extensionId];
      InWindowByCyclicOffset(MinuteOfDay(now), ToMinutes(c.windowStart), ToMinutes(c.windowEnd));
    }
  }

  /** A rule whose start and end name the same time of day has an empty window:
      its extension is locked all day. */
  lemma SameTimesAlwaysLocked(locks: map<string, LockConfig>, extensionId: string, now: int)
    requires extensionId in locks && ConfigWellFormed(locks[extensionId]) && locks[extensionId].enabled
    requires ToMinutes(locks[extensionId].windowStart) == ToMinutes(locks[extensionId].windowEnd)
    ensures IsLocked(locks, extensionId, now)
  {
    EmptyWindow(MinuteOfDay(now), ToMinutes(locks[extensionId].windowStart));
  }

  /** The window `21:00`-`23:00` is open at 22:00 and locked at 20:00; the
      window `23:00`-`06:00` crosses midnight, so it is open at 02:00 and locked
      at 12:00. */
  lemma ScenarioWindows(day: int)
    ensures var locks := map["e" := LockConfig("21:00", "23:00", None, true, true)];
      !IsLocked(locks, "e", day * DAY_MS + 22 * HOUR_MS) && IsLocked(locks, "e", day * DAY_MS + 20 * HOUR_MS)
    ensures var locks := map["e" := LockConfig("23:00", "06:00", None, true, true)];
      !IsLocked(locks, "e", day * DAY_MS + 2 * HOUR_MS) && IsLocked(locks, "e", day * DAY_MS + 12 * HOUR_MS)
  {
    assert ToMinutes("21:00") == 1260 && ToMinutes("23:00") == 1380 && ToMinutes("06:00") == 360;
    RepeatingFireMinute(22 * HOUR_MS, 22 * 60, 0);
    RepeatingFireMinute(day * DAY_MS + 22 * HOUR_MS, 22 * 60, 0);
    assert MinuteOfDay(day * DAY_MS + 22 * HOUR_MS) == 22 * 60 by { HourOfDay(day, 22); }
    assert MinuteOfDay(day * DAY_MS + 20 * HOUR_MS) == 20 * 60 by { HourOfDay(day, 20); }
    assert MinuteOfDay(day * DAY_MS + 2 * HOUR_MS) == 2 * 60 by { HourOfDay(day, 2); }
    assert MinuteOfDay(day * DAY_MS + 12 * HOUR_MS) == 12 * 60 by { HourOfDay(day, 12); }
  }

  lemma HourOfDay(day: int, h: int)
    requires 0 <= h < 24
    ensures MinuteOfDay(day * DAY_MS + h * HOUR_MS) == h * 60
  {
    DayOffset(day, h * HOUR_MS);
    RepeatingFireMinute(day * DAY_MS + h * HOUR_MS, h * 60, 0);
  }

  // ---------------------------------------------------------------------------
  // 24-hour edit lockout

  /** setLock's lockout test: no entry, or no lastChanged, or 24 hours or more
      since it (`hoursSinceChange < 24` blocks the change). A change is refused
      exactly while fewer than 24 hours have passed since a recorded change. */
  function CanChange(existing: Option<LockConfig>, now: int): (allowed: bool)
    ensures !allowed <==>
      existing.Some? && existing.value.lastChanged.Some? && now < existing.value.lastChanged.value + DAY_MS
  {
    || existing.None?
    || existing.value.lastChanged.None?
    || now - existing.value.lastChanged.value >= DAY_MS
  }

  /** `getTimeUntilChangeAllowed`, in milliseconds: 0 without an entry or a
      lastChanged, otherwise max(0, 24 hours - time since the last change). */
  function TimeUntilChangeAllowed(locks: map<string, LockConfig>, extensionId: string, now: int): (waitMs: int)
    ensures waitMs >= 0
  {
    match GetLock(locks, extensionId)
    case None => 0
    case Some(c) =>
      if c.lastChanged.None? then 0
      else
        var remaining := DAY_MS - (now - c.lastChanged.value);
        if remaining > 0 then remaining else 0
  }

  /** The checks setLock makes before it touches anything, in its order: the
      lockout first, then the format of both times; and the entry it stores. */
  function CheckSetLock(existing: Option<LockConfig>, windowStart: string, windowEnd: string,
                        notify: bool, now: int): (r: Result<LockConfig, LockError>)
    ensures (r.Failure? && r.error.LockoutActive?) <==> !CanChange(existing, now)
    ensures r == Failure(InvalidTimeFormat) <==>
      CanChange(existing, now) && !(IsValidTime(windowStart) && IsValidTime(windowEnd))
    ensures r.Failure? ==> !r.error.ExtensionNotFound?
    ensures r.Success? ==> ConfigWellFormed(r.value) && r.value == LockConfig(windowStart, windowEnd, Some(now), true, notify)
  {
    if !CanChange(existing, now) then
      Failure(LockoutActive(DAY_MS - (now - existing.value.lastChanged.value)))
    else if !IsValidTime(windowStart) || !IsValidTime(windowEnd) then
      Failure(InvalidTimeFormat)
    else
      Success(LockConfig(windowStart, windowEnd, Some(now), true, notify))
  }

  /** The wait getTimeUntilChangeAllowed reports is positive exactly when
      setLock would throw the lockout error, and it is the wait that error
      carries; the lockout is checked before the times' format. */
  lemma WaitPositiveIffLockedOut(locks: map<string, LockConfig>, extensionId: string,
                                 windowStart: string, windowEnd: string, notify: bool, now: int)
    ensures var r := CheckSetLock(GetLock(locks, extensionId), windowStart, windowEnd, notify, now);
      && (TimeUntilChangeAllowed(locks, extensionId, now) > 0 <==> r.Failure? && r.error.LockoutActive?)
      && (r.Failure? && r.error.LockoutActive? ==> r.error.waitMs == TimeUntilChangeAllowed(locks, extensionId, now))
  {
  }

  /** Once setLock has stored an entry at `now`, every setLock on that extension
      in the following 24 hours fails with the lockout error, and from then on
      the lockout no longer applies. */
  lemma LockoutLastsOneDay(locks: map<string, LockConfig>, extensionId: string,
                           windowStart: string, windowEnd: string, notify: bool, now: int,
                           start2: string, end2: string, notify2: bool, later: int)
    requires CheckSetLock(GetLock(locks, extensionId), windowStart, windowEnd, notify, now).Success?
    requires later >= now
    ensures var stored := CheckSetLock(GetLock(locks, extensionId), windowStart, windowEnd, notify, now).value;
      var again := CheckSetLock(GetLock(locks[extensionId := stored], extensionId), start2, end2, notify2, later);
      && (later < now + DAY_MS ==> again == Failure(LockoutActive(now + DAY_MS - later)))
      && (later >= now + DAY_MS ==> !(again.Failure? && again.error.LockoutActive?))
  {
  }

  /** A successful change of an existing entry is stamped at least a day after
      the previous one, so lastChanged only increases. */
  lemma LastChangedIncreases(existing: LockConfig, windowStart: string, windowEnd: string, notify: bool, now: int)
    requires existing.lastChanged.Some?
    requires CheckSetLock(Some(existing), windowStart, windowEnd, notify, now).Success?
    ensures CheckSetLock(Some(existing), windowStart, windowEnd, notify, now).value.lastChanged.value
            >= existing.lastChanged.value + DAY_MS
  {
  }

  // ---------------------------------------------------------------------------
  // Alarm names

  function StartAlarmName(extensionId: string): (name: string)
    ensures |name| == |extensionId| + |START_SUFFIX| && name[..|extensionId|] == extensionId
  {
    extensionId + START_SUFFIX
  }

  function EndAlarmName(extensionId: string): (name: string)
    ensures |name| == |extensionId| + |END_SUFFIX| && name[..|extensionId|] == extensionId
  {
    extensionId + END_SUFFIX
  }

  /** Distinct extensions own distinct alarm names, and no start alarm name is an
      end alarm name. */
  lemma AlarmNamesDistinct(a: string, b: string)
    ensures StartAlarmName(a) != EndAlarmName(b)
    ensures a != b ==> StartAlarmName(a) != StartAlarmName(b) && EndAlarmName(a) != EndAlarmName(b)
  {
    var s, e := StartAlarmName(a), EndAlarmName(b);
    assert s[|s| - 1] == 't' && e[|e| - 1] == 'd';
  }

  /** A fired alarm, as handleAlarm reads its name. */
  datatype AlarmEvent = WindowOpened(extensionId: string) | WindowClosed(extensionId: string)

  function AlarmName(e: AlarmEvent): string {
    match e
    case WindowOpened(id) => StartAlarmName(id)
    case WindowClosed(id) => EndAlarmName(id)
  }

  /** handleAlarm's decoding: test the `_window_start` suffix, then `_window_end`,
      and take the id as the name with the suffix text's first occurrence removed.
      A name decodes exactly when it ends in one of the two suffixes, to the phase
      of that suffix, and the id is one suffix shorter than the name. */
  function ParseAlarmName(name: string): (r: Option<AlarmEvent>)
    ensures r.Some? <==> EndsWith(name, START_SUFFIX) || EndsWith(name, END_SUFFIX)
    ensures r.Some? ==> (r.value.WindowOpened? <==> EndsWith(name, START_SUFFIX))
    ensures r.Some? && r.value.WindowOpened? ==> |r.value.extensionId| == |name| - |START_SUFFIX|
    ensures r.Some? && r.value.WindowClosed? ==> |r.value.extensionId| == |name| - |END_SUFFIX|
  {
    if EndsWith(name, START_SUFFIX) then Some(WindowOpened(ReplaceFirst(name, START_SUFFIX, "")))
    else if EndsWith(name, END_SUFFIX) then Some(WindowClosed(ReplaceFirst(name, END_SUFFIX, "")))
    else None
  }

  /** handleAlarm recovers the extension and the phase from every alarm name the
      scheduler creates, for ids without `_` (browser extension ids are 32 letters). */
  lemma ParseAlarmNameRoundTrip(e: AlarmEvent)
    requires '_' !in e.extensionId
    ensures ParseAlarmName(AlarmName(e)) == Some(e)
  {
    match e
    case WindowOpened(id) =>
      ReplaceFirstAppended(id, START_SUFFIX);
    case WindowClosed(id) =>
      var name := EndAlarmName(id);
      assert name[|name| - 1] == 'd';
      assert !EndsWith(name, START_SUFFIX);
      ReplaceFirstAppended(id, END_SUFFIX);
  }

  // ---------------------------------------------------------------------------
  // Alarm schedule

  /** `getNextAlarmTime`: set the hours and minutes of today's date (seconds and
      milliseconds zero) and move one day on when that is not after now. */
  method GetNextAlarmTime(timeString: string, now: int) returns (alarm: int)
    requires IsValidTime(timeString)
    ensures now < alarm <= now + DAY_MS
    ensures alarm == NextOccurrence(now, ToMinutes(timeString))
  {
    var hours, minutes := Hours(timeString), Minutes(timeString);
    alarm := now;
    alarm := StartOfDay(alarm) + hours * HOUR_MS + minutes * MINUTE_MS;
    if alarm <= now {
      alarm := alarm + DAY_MS;
    }
  }

  function WindowStartAlarm(c: LockConfig, now: int): Alarm
    requires ConfigWellFormed(c)
  {
    Alarm(NextOccurrence(now, ToMinutes(c.windowStart)), MINUTES_PER_DAY)
  }

  function WindowEndAlarm(c: LockConfig, now: int): Alarm
    requires ConfigWellFormed(c)
  {
    Alarm(NextOccurrence(now, ToMinutes(c.windowEnd)), MINUTES_PER_DAY)
  }

  /** `registry` after scheduleWindowAlarms for `extensionId` and `c` at `now`. */
  function WithWindowAlarms(registry: map<string, Alarm>, extensionId: string, c: LockConfig, now: int): map<string, Alarm>
    requires ConfigWellFormed(c)
  {
    registry[StartAlarmName(extensionId) := WindowStartAlarm(c, now)][EndAlarmName(extensionId) := WindowEndAlarm(c, now)]
  }

  /** The alarm names the enabled rules own. */
  function LockAlarmNames(locks: map<string, LockConfig>): set<string> {
    (set id | id in locks && locks[id].enabled :: StartAlarmName(id))
    + (set id | id in locks && locks[id].enabled :: EndAlarmName(id))
  }

  /** Each enabled rule's two alarms are registered at the next occurrence of its
      window start and end after `now`, repeating daily. */
  predicate HasWindowAlarms(registry: map<string, Alarm>, locks: map<string, LockConfig>, now: int)
    requires WellFormed(locks)
  {
    forall id :: id in locks && locks[id].enabled ==>
      && StartAlarmName(id) in registry && registry[StartAlarmName(id)] == WindowStartAlarm(locks[id], now)
      && EndAlarmName(id) in registry && registry[EndAlarmName(id)] == WindowEndAlarm(locks[id], now)
  }

  /** The registry initialize builds at `now`: both alarms of every enabled rule
      and nothing else. */
  predicate IsLockSchedule(registry: map<string, Alarm>, locks: map<string, LockConfig>, now: int)
    requires WellFormed(locks)
  {
    registry.Keys == LockAlarmNames(locks) && HasWindowAlarms(registry, locks, now)
  }

  /** IsLockSchedule pins the registry down: there is exactly one for a rule
      table and an instant. */
  lemma LockScheduleUnique(r1: map<string, Alarm>, r2: map<string, Alarm>, locks: map<string, LockConfig>, now: int)
    requires WellFormed(locks) && IsLockSchedule(r1, locks, now) && IsLockSchedule(r2, locks, now)
    ensures r1 == r2
  {
    forall n | n in r1
      ensures r1[n] == r2[n]
    {
      var x :| x in locks && locks[x].enabled && (n == StartAlarmName(x) || n == EndAlarmName(x));
    }
  }

  /** Every alarm of the schedule fires first strictly after `now` and at most a
      day later, and repeats every 1440 minutes. */
  lemma LockScheduleBounds(registry: map<string, Alarm>, locks: map<string, LockConfig>, now: int)
    requires WellFormed(locks) && IsLockSchedule(registry, locks, now)
    ensures forall n :: n in registry ==>
      now < registry[n].when <= now + DAY_MS && registry[n].periodInMinutes == MINUTES_PER_DAY
  {
    forall n | n in registry
      ensures now < registry[n].when <= now + DAY_MS && registry[n].periodInMinutes == MINUTES_PER_DAY
    {
      var x :| x in locks && locks[x].enabled && (n == StartAlarmName(x) || n == EndAlarmName(x));
    }
  }

  /** Storing an enabled rule adds its two alarm names and keeps every other one. */
  lemma LockAlarmNamesPut(locks: map<string, LockConfig>, id: string, c: LockConfig)
    requires c.enabled
    ensures LockAlarmNames(locks[id := c]) == LockAlarmNames(locks) + {StartAlarmName(id), EndAlarmName(id)}
  {
    var m := locks[id := c];
    forall n | n in LockAlarmNames(m)
      ensures n in LockAlarmNames(locks) + {StartAlarmName(id), EndAlarmName(id)}
    {
      var x :| x in m && m[x].enabled && (n == StartAlarmName(x) || n == EndAlarmName(x));
      if x != id {
        assert x in locks && locks[x].enabled;
      }
    }
    forall n | n in LockAlarmNames(locks)
      ensures n in LockAlarmNames(m)
    {
      var x :| x in locks && locks[x].enabled && (n == StartAlarmName(x) || n == EndAlarmName(x));
      if x != id {
        assert x in m && m[x].enabled;
      } else {
        assert id in m && m[id].enabled;
      }
    }
    assert id in m && m[id].enabled;
  }

  /** Adding a disabled rule for a new extension adds no alarm name. */
  lemma LockAlarmNamesPutDisabled(locks: map<string, LockConfig>, id: string, c: LockConfig)
    requires !c.enabled && id !in locks
    ensures LockAlarmNames(locks[id := c]) == LockAlarmNames(locks)
  {
    var m := locks[id := c];
    forall n | n in LockAlarmNames(m)
      ensures n in LockAlarmNames(locks)
    {
      var x :| x in m && m[x].enabled && (n == StartAlarmName(x) || n == EndAlarmName(x));
      assert x in locks && locks[x].enabled;
    }
    forall n | n in LockAlarmNames(locks)
      ensures n in LockAlarmNames(m)
    {
      var x :| x in locks && locks[x].enabled && (n == StartAlarmName(x) || n == EndAlarmName(x));
      assert x in m && m[x].enabled;
    }
  }

  /** Deleting a rule removes exactly its two alarm names. */
  lemma LockAlarmNamesRemove(locks: map<string, LockConfig>, id: string)
    ensures LockAlarmNames(locks - {id}) == LockAlarmNames(locks) - {StartAlarmName(id), EndAlarmName(id)}
  {
    var m := locks - {id};
    forall n | n in LockAlarmNames(m)
      ensures n in LockAlarmNames(locks) - {StartAlarmName(id), EndAlarmName(id)}
    {
      var x :| x in m && m[x].enabled && (n == StartAlarmName(x) || n == EndAlarmName(x));
      assert x in locks && locks[x].enabled;
      AlarmNamesDistinct(x, id);
      AlarmNamesDistinct(id, x);
    }
    forall n | n in LockAlarmNames(locks) - {StartAlarmName(id), EndAlarmName(id)}
      ensures n in LockAlarmNames(m)
    {
      var x :| x in locks && locks[x].enabled && (n == StartAlarmName(x) || n == EndAlarmName(x));
      assert x in m && m[x].enabled;
    }
  }

  /** Scheduling the alarms of a stored enabled rule leaves every rule's alarms
      in place. */
  lemma WindowAlarmsPut(registry: map<string, Alarm>, locks: map<string, LockConfig>, id: string, c: LockConfig, now: int)
    requires WellFormed(locks) && ConfigWellFormed(c) && c.enabled
    requires HasWindowAlarms(registry, locks, now)
    ensures WellFormed(locks[id := c])
    ensures HasWindowAlarms(WithWindowAlarms(registry, id, c, now), locks[id := c], now)
  {
    var after, m := WithWindowAlarms(registry, id, c, now), locks[id := c];
    forall x | x in m && m[x].enabled
      ensures && StartAlarmName(x) in after && after[StartAlarmName(x)] == WindowStartAlarm(m[x], now)
              && EndAlarmName(x) in after && after[EndAlarmName(x)] == WindowEndAlarm(m[x], now)
    {
      AlarmNamesDistinct(x, id);
      AlarmNamesDistinct(id, x);
    }
  }

  /** Clearing one extension's alarm names leaves the other rules' alarms. */
  lemma WindowAlarmsRemove(registry: map<string, Alarm>, locks: map<string, LockConfig>, id: string, now: int)
    requires WellFormed(locks) && HasWindowAlarms(registry, locks, now)
    ensures WellFormed(locks - {id})
    ensures HasWindowAlarms(registry - {StartAlarmName(id), EndAlarmName(id)}, locks - {id}, now)
  {
    var after, m := registry - {StartAlarmName(id), EndAlarmName(id)}, locks - {id};
    forall x | x in m && m[x].enabled
      ensures && StartAlarmName(x) in after && after[StartAlarmName(x)] == WindowStartAlarm(m[x], now)
              && EndAlarmName(x) in after && after[EndAlarmName(x)] == WindowEndAlarm(m[x], now)
    {
      AlarmNamesDistinct(x, id);
      AlarmNamesDistinct(id, x);
    }
  }

  /** Storing an enabled rule and scheduling its alarms keeps the registry equal
      to what initialize would build for the new table at the same instant. */
  lemma LockScheduleAfterSet(registry: map<string, Alarm>, locks: map<string, LockConfig>, id: string, c: LockConfig, now: int)
    requires WellFormed(locks) && ConfigWellFormed(c) && c.enabled
    requires IsLockSchedule(registry, locks, now)
    ensures WellFormed(locks[id := c])
    ensures IsLockSchedule(WithWindowAlarms(registry, id, c, now), locks[id := c], now)
  {
    LockAlarmNamesPut(locks, id, c);
    WindowAlarmsPut(registry, locks, id, c, now);
  }

  /** Adding a disabled rule for a new extension needs no alarm. */
  lemma LockScheduleAfterDisabledAdd(registry: map<string, Alarm>, locks: map<string, LockConfig>, id: string, c: LockConfig, now: int)
    requires WellFormed(locks) && ConfigWellFormed(c) && !c.enabled && id !in locks
    requires IsLockSchedule(registry, locks, now)
    ensures WellFormed(locks[id := c])
    ensures IsLockSchedule(registry, locks[id := c], now)
  {
    LockAlarmNamesPutDisabled(locks, id, c);
  }

  /** Deleting a rule and clearing its two alarms keeps the registry equal to what
      initialize would build for the new table. */
  lemma LockScheduleAfterRemove(registry: map<string, Alarm>, locks: map<string, LockConfig>, id: string, now: int)
    requires WellFormed(locks) && IsLockSchedule(registry, locks, now)
    ensures WellFormed(locks - {id})
    ensures IsLockSchedule(registry - {StartAlarmName(id), EndAlarmName(id)}, locks - {id}, now)
  {
    LockAlarmNamesRemove(locks, id);
    WindowAlarmsRemove(registry, locks, id, now);
  }

  /** At every firing of an enabled rule's window-end alarm the extension is
      locked, and at every firing of its window-start alarm it is not, unless the
      window is empty. */
  lemma AlarmsFireAtWindowEdges(locks: map<string, LockConfig>, id: string, now: int, k: nat)
    requires WellFormed(locks) && id in locks && locks[id].enabled
    ensures IsLocked(locks, id, WindowEndAlarm(locks[id], now).when + k * DAY_MS)
    ensures ToMinutes(locks[id].windowStart) != ToMinutes(locks[id].windowEnd) ==>
      !IsLocked(locks, id, WindowStartAlarm(locks[id], now).when + k * DAY_MS)
  {
    var c := locks[id];
    var s, e := ToMinutes(c.windowStart), ToMinutes(c.windowEnd);
    RepeatingFireMinute(WindowEndAlarm(c, now).when, e, k);
    RepeatingFireMinute(WindowStartAlarm(c, now).when, s, k);
  }

  /** `scheduleWindowAlarms`: (re)create both daily alarms of one rule. */
  method ScheduleWindowAlarms(alarms: Alarms, extensionId: string, config: LockConfig, now: int)
    requires ConfigWellFormed(config)
    modifies alarms
    ensures alarms.registry == WithWindowAlarms(old(alarms.registry), extensionId, config, now)
  {
    var startAlarm := GetNextAlarmTime(config.windowStart, now);
    alarms.Create(StartAlarmName(extensionId), startAlarm, MINUTES_PER_DAY);
    var endAlarm := GetNextAlarmTime(config.windowEnd, now);
    alarms.Create(EndAlarmName(extensionId), endAlarm, MINUTES_PER_DAY);
  }

  /** `initialize`: clear every alarm, then schedule both alarms of each enabled rule. */
  method Initialize(store: Storage<LockConfig>, alarms: Alarms, now: int)
    requires WellFormed(store.items)
    modifies alarms
    ensures IsLockSchedule(alarms.registry, store.items, now)
  {
    var locks := store.items;
    alarms.ClearAll();
    var pending := locks.Keys;
    ghost var done: map<string, LockConfig> := map[];
    while pending != {}
      invariant pending <= locks.Keys
      invariant done.Keys == locks.Keys - pending
      invariant forall id :: id in done ==> done[id] == locks[id]
      invariant WellFormed(done)
      invariant IsLockSchedule(alarms.registry, done, now)
      decreases pending
    {
      var id :| id in pending;
      if locks[id].enabled {
        LockScheduleAfterSet(alarms.registry, done, id, locks[id], now);
        ScheduleWindowAlarms(alarms, id, locks[id], now);
      } else {
        LockScheduleAfterDisabledAdd(alarms.registry, done, id, locks[id], now);
      }
      done := done[id := locks[id]];
      pending := pending - {id};
    }
    assert done == locks;
  }

  // ---------------------------------------------------------------------------
  // Rule edits

  /** `setLock`: refuse within 24 hours of the last change, then refuse malformed
      times, then (the extension must exist) turn it on if it is off, store the new
      entry stamped `now` and (re)create its two alarms. An error changes nothing. */
  method SetLock(store: Storage<LockConfig>, management: Management, alarms: Alarms,
                 extensionId: string, windowStart: string, windowEnd: string, notify: bool, now: int)
    returns (r: Result<LockConfig, LockError>)
    modifies store, management, alarms
    ensures var check := CheckSetLock(old(GetLock(store.items, extensionId)), windowStart, windowEnd, notify, now);
      r == if check.Success? && extensionId !in old(management.enabled) then Failure(ExtensionNotFound) else check
    ensures r.Failure? ==>
      && store.items == old(store.items)
      && management.enabled == old(management.enabled)
      && management.setEnabledCalls == old(management.setEnabledCalls)
      && alarms.registry == old(alarms.registry)
    ensures r.Success? ==>
      && r.value == LockConfig(windowStart, windowEnd, Some(now), true, notify)
      && store.items == old(store.items)[extensionId := r.value]
      && management.enabled == old(management.enabled)[extensionId := true]
      && management.setEnabledCalls == old(management.setEnabledCalls)
           + (if old(management.enabled)[extensionId] then [] else [(extensionId, true)])
      && alarms.registry == WithWindowAlarms(old(alarms.registry), extensionId, r.value, now)
    ensures WellFormed(old(store.items)) ==> WellFormed(store.items)
    ensures old(alarms.registry.Keys) == LockAlarmNames(old(store.items)) ==>
      alarms.registry.Keys == LockAlarmNames(store.items)
    ensures WellFormed(old(store.items)) && old(IsLockSchedule(alarms.registry, store.items, now)) ==>
      IsLockSchedule(alarms.registry, store.items, now)
  {
    var locks := store.items;
    var check := CheckSetLock(GetLock(locks, extensionId), windowStart, windowEnd, notify, now);
    if check.Failure? {
      return check;
    }
    var info := management.Get(extensionId);
    if info.None? {
      return Failure(ExtensionNotFound);
    }
    if !info.value {
      management.SetEnabled(extensionId, true);
    }
    locks := locks[extensionId := check.value];
    store.Set(locks);
    ScheduleWindowAlarms(alarms, extensionId, check.value, now);
    r := check;
    SetLockKeeps(old(alarms.registry), old(store.items), extensionId, check.value, now);
  }

  /** A successful setLock keeps the valid-times invariant, the alarm-name set
      and the schedule initialize would build. */
  lemma SetLockKeeps(registry: map<string, Alarm>, locks: map<string, LockConfig>, id: string, c: LockConfig, now: int)
    requires ConfigWellFormed(c) && c.enabled
    ensures WellFormed(locks) ==> WellFormed(locks[id := c])
    ensures registry.Keys == LockAlarmNames(locks) ==>
      WithWindowAlarms(registry, id, c, now).Keys == LockAlarmNames(locks[id := c])
    ensures WellFormed(locks) && IsLockSchedule(registry, locks, now) ==>
      IsLockSchedule(WithWindowAlarms(registry, id, c, now), locks[id := c], now)
  {
    LockAlarmNamesPut(locks, id, c);
    if WellFormed(locks) && IsLockSchedule(registry, locks, now) {
      LockScheduleAfterSet(registry, locks, id, c, now);
    }
  }

  /** `removeLock`: delete the entry and clear both alarm names; removing an
      extension without an entry changes no rule. */
  method RemoveLock(store: Storage<LockConfig>, alarms: Alarms, extensionId: string)
    modifies store, alarms
    ensures store.items == old(store.items) - {extensionId}
    ensures alarms.registry == old(alarms.registry) - {StartAlarmName(extensionId), EndAlarmName(extensionId)}
    ensures WellFormed(old(store.items)) ==> WellFormed(store.items)
    ensures old(alarms.registry.Keys) == LockAlarmNames(old(store.items)) ==>
      alarms.registry.Keys == LockAlarmNames(store.items)
  {
    LockAlarmNamesRemove(store.items, extensionId);
    var locks := store.items;
    locks := locks - {extensionId};
    store.Set(locks);
    alarms.Clear(StartAlarmName(extensionId));
    alarms.Clear(EndAlarmName(extensionId));
  }

  // ---------------------------------------------------------------------------
  // Alarm handling

  /** The notifications onWindowStart creates: one when the rule exists, is
      enabled and asks for it, and the extension is installed. */
  function OpenNotices(locks: map<string, LockConfig>, installed: map<string, bool>, extensionId: string): seq<string> {
    if && extensionId in locks && locks[extensionId].enabled
       && extensionId in installed && locks[extensionId].notifyOnWindowOpen
    then [WINDOW_START_NOTICE + extensionId]
    else []
  }

  /** onWindowEnd acts when the rule exists and is enabled and the extension is
      installed and off. */
  predicate ReenableDue(locks: map<string, LockConfig>, installed: map<string, bool>, extensionId: string) {
    extensionId in locks && locks[extensionId].enabled && extensionId in installed && !installed[extensionId]
  }

  /** The enabled flags after onWindowEnd. */
  function AfterWindowEnd(locks: map<string, LockConfig>, installed: map<string, bool>, extensionId: string): map<string, bool> {
    if ReenableDue(locks, installed, extensionId) then installed[extensionId := true] else installed
  }

  /** After the window-close handler the extension of an enabled rule is on, no
      other extension changed, and a second firing is due nothing. */
  lemma WindowEndSettles(locks: map<string, LockConfig>, installed: map<string, bool>, extensionId: string)
    ensures var after := AfterWindowEnd(locks, installed, extensionId);
      && after.Keys == installed.Keys
      && (forall x :: x in installed && x != extensionId ==> after[x] == installed[x])
      && (extensionId in locks && locks[extensionId].enabled && extensionId in installed ==> after[extensionId])
      && !ReenableDue(locks, after, extensionId)
      && AfterWindowEnd(locks, after, extensionId) == after
  {
  }

  /** `onWindowStart`: notify that the window opened, if the rule asks for it. */
  method OnWindowStart(store: Storage<LockConfig>, management: Management, notifications: Notifications,
                       extensionId: string)
    modifies notifications
    ensures notifications.created == old(notifications.created) + OpenNotices(store.items, management.enabled, extensionId)
  {
    var config := GetLock(store.items, extensionId);
    if config.None? || !config.value.enabled {
      return;
    }
    var info := management.Get(extensionId);
    if info.None? {
      return;
    }
    if config.value.notifyOnWindowOpen {
      notifications.Create(WINDOW_START_NOTICE + extensionId);
    }
  }

  /** `onWindowEnd`: turn the extension back on if it is off, and notify. */
  method OnWindowEnd(store: Storage<LockConfig>, management: Management, notifications: Notifications,
                     extensionId: string)
    modifies management, notifications
    ensures management.enabled == AfterWindowEnd(store.items, old(management.enabled), extensionId)
    ensures var due := ReenableDue(store.items, old(management.enabled), extensionId);
      && management.setEnabledCalls == old(management.setEnabledCalls) + (if due then [(extensionId, true)] else [])
      && notifications.created == old(notifications.created) + (if due then [WINDOW_END_NOTICE + extensionId] else [])
  {
    var config := GetLock(store.items, extensionId);
    if config.None? || !config.value.enabled {
      return;
    }
    var info := management.Get(extensionId);
    if info.None? {
      return;
    }
    if !info.value {
      management.SetEnabled(extensionId, true);
      notifications.Create(WINDOW_END_NOTICE + extensionId);
    }
  }

  /** `handleAlarm`: dispatch a fired alarm to onWindowStart or onWindowEnd by its
      name; any other name is ignored. */
  method HandleAlarm(store: Storage<LockConfig>, management: Management, notifications: Notifications,
                     alarmName: string)
    modifies management, notifications
    ensures match ParseAlarmName(alarmName)
      case None =>
        && management.enabled == old(management.enabled)
        && management.setEnabledCalls == old(management.setEnabledCalls)
        && notifications.created == old(notifications.created)
      case Some(WindowOpened(id)) =>
        && management.enabled == old(management.enabled)
        && management.setEnabledCalls == old(management.setEnabledCalls)
        && notifications.created == old(notifications.created) + OpenNotices(store.items, old(management.enabled), id)
      case Some(WindowClosed(id)) =>
        var due := ReenableDue(store.items, old(management.enabled), id);
        && management.enabled == AfterWindowEnd(store.items, old(management.enabled), id)
        && management.setEnabledCalls == old(management.setEnabledCalls) + (if due then [(id, true)] else [])
        && notifications.created == old(notifications.created) + (if due then [WINDOW_END_NOTICE + id] else [])
  {
    match ParseAlarmName(alarmName)
    case None =>
    case Some(WindowOpened(id)) =>
      OnWindowStart(store, management, notifications, id);
    case Some(WindowClosed(id)) =>
      OnWindowEnd(store, management, notifications, id);
  }

  // ---------------------------------------------------------------------------
  // Scenarios

  /** A window-close alarm for an extension that is off turns it on and notifies
      once; the same alarm firing again right after does nothing. */
  method WindowCloseScenario()
  {
    var store := new Storage<LockConfig>();
    store.Set(map["ext" := LockConfig("21:00", "23:00", Some(0), true, true)]);
    var management := new Management(map["ext" := false]);
    var notifications := new Notifications();
    ParseAlarmNameRoundTrip(WindowClosed("ext"));
    var name := AlarmName(WindowClosed("ext"));
    HandleAlarm(store, management, notifications, name);
    assert management.enabled["ext"];
    assert management.setEnabledCalls == [("ext", true)];
    assert notifications.created == [WINDOW_END_NOTICE + "ext"];
    HandleAlarm(store, management, notifications, name);
    assert management.setEnabledCalls == [("ext", true)];
    assert notifications.created == [WINDOW_END_NOTICE + "ext"];
  }

  /** setLock on an extension that is off turns it on and stores the rule; a
      second setLock straight after is refused and changes nothing. */
  method SetLockTwiceScenario(now: int)
  {
    var store := new Storage<LockConfig>();
    var management := new Management(map["ext" := false]);
    var alarms := new Alarms();
    var r := SetLock(store, management, alarms, "ext", "21:00", "23:00", true, now);
    assert r.Success?;
    assert management.enabled["ext"] && management.setEnabledCalls == [("ext", true)];
    var first := store.items;
    var r2 := SetLock(store, management, alarms, "ext", "08:00", "09:00", true, now);
    assert r2 == Failure(LockoutActive(DAY_MS));
    assert store.items == first;
  }
}
