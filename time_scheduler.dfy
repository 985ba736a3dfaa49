/** The time-rule scheduler of js/time-scheduler.js.

    Each rule turns an extension off at `disableTime` and back on at `enableTime`
    every day, through the daily alarms `disable_<id>` and `enable_<id>`. The
    rule table lives in chrome.storage.sync under `timeRules`, and a rule may be
    changed once per calendar day. */
module TimeScheduler {
  import opened Wrappers
  import opened Clock
  import opened Strings
  import opened Chrome
  import LockScheduler

  const DISABLE_PREFIX := "disable_"
  const ENABLE_PREFIX := "enable_"

  /** One rule; `lastChanged` is the calendar day of its last update. */
  datatype TimeRule = TimeRule(disableTime: string, enableTime: string, enabled: bool, lastChanged: int)

  /** `getTodayString`: the calendar day `now` falls on, as a day number (the
      `YYYY-MM-DD` string names exactly one day, so comparing strings is comparing
      day numbers). */
  function Today(now: int): (day: int)
    ensures day * DAY_MS <= now < (day + 1) * DAY_MS
  {
    now / DAY_MS
  }

  // ---------------------------------------------------------------------------
  // Once-per-day edit lockout

  /** `canEditRule`: no rule yet, or its last change was not today. An edit is
      refused exactly while `now` lies in the calendar day of the rule's last
      change. */
  function CanEditRule(rules: map<string, TimeRule>, extensionId: string, now: int): (allowed: bool)
    ensures !allowed <==>
      extensionId in rules && rules[extensionId].lastChanged * DAY_MS <= now < (rules[extensionId].lastChanged + 1) * DAY_MS
  {
    extensionId !in rules || rules[extensionId].lastChanged != Today(now)
  }

  /** The rule updateTimeRule stores at `now`. */
  function StampedRule(disableTime: string, enableTime: string, enabled: bool, now: int): (rule: TimeRule)
    ensures rule.lastChanged == Today(now)
  {
    TimeRule(disableTime, enableTime, enabled, Today(now))
  }

  /** After a successful update the rule can be edited again exactly when the
      calendar day has changed: a second update on the same day fails. */
  lemma EditLockedUntilNextDay(rules: map<string, TimeRule>, extensionId: string,
                               disableTime: string, enableTime: string, enabled: bool, now: int, later: int)
    ensures CanEditRule(rules[extensionId := StampedRule(disableTime, enableTime, enabled, now)], extensionId, later)
            <==> Today(later) != Today(now)
  {
  }

  /** The calendar-day rule never holds an edit back longer than the 24-hour
      rule of the lock engine: 24 hours after the last change, the day has
      changed. */
  lemma CalendarLockoutWithinDay(rules: map<string, TimeRule>, extensionId: string, changedAt: int, later: int)
    requires extensionId in rules && rules[extensionId].lastChanged == Today(changedAt)
    requires later - changedAt >= DAY_MS
    ensures CanEditRule(rules, extensionId, later)
  {
    var d0, d1 := Today(changedAt), Today(later);
    assert d0 * DAY_MS + DAY_MS <= later < (d1 + 1) * DAY_MS;
    assert d0 < d1;
  }

  /** The converse fails: a rule changed at 23:59 may be changed again one minute
      later, at 00:00 of the next day. */
  lemma CalendarLockoutCanBeShort()
    ensures var rules := map["ext" := StampedRule("22:00", "07:00", true, DAY_MS - MINUTE_MS)];
      CanEditRule(rules, "ext", DAY_MS) && DAY_MS - (DAY_MS - MINUTE_MS) < DAY_MS
  {
    assert Today(DAY_MS - MINUTE_MS) == 0;
    assert Today(DAY_MS) == 1;
  }

  // ---------------------------------------------------------------------------
  // Alarm names

  function DisableAlarmName(extensionId: string): string {
    DISABLE_PREFIX + extensionId
  }

  function EnableAlarmName(extensionId: string): string {
    ENABLE_PREFIX + extensionId
  }

  /** Distinct extensions own distinct alarm names, and no disable alarm name is
      an enable alarm name. */
  lemma AlarmNamesDistinct(a: string, b: string)
    ensures DisableAlarmName(a) != EnableAlarmName(b)
    ensures DisableAlarmName(a) == DisableAlarmName(b) ==> a == b
    ensures EnableAlarmName(a) == EnableAlarmName(b) ==> a == b
  {
    assert DisableAlarmName(a)[0] == 'd' && EnableAlarmName(b)[0] == 'e';
    if DisableAlarmName(a) == DisableAlarmName(b) {
      assert a == DisableAlarmName(a)[|DISABLE_PREFIX|..] == DisableAlarmName(b)[|DISABLE_PREFIX|..] == b;
    }
    if EnableAlarmName(a) == EnableAlarmName(b) {
      assert a == EnableAlarmName(a)[|ENABLE_PREFIX|..] == EnableAlarmName(b)[|ENABLE_PREFIX|..] == b;
    }
  }

  /** What a fired alarm asks for: turn `extensionId` on or off. */
  datatype RuleAction = RuleAction(extensionId: string, shouldEnable: bool)

  function ActionAlarmName(a: RuleAction): string {
    if a.shouldEnable then EnableAlarmName(a.extensionId) else DisableAlarmName(a.extensionId)
  }

  /** handleAlarm's decoding: the first two fields of `name.split('_')` are the
      action and the extension id; an action other than `disable` or `enable`, or a
      missing id, asks for nothing. */
  function ParseActionAlarm(name: string): (r: Option<RuleAction>)
    ensures r.Some? <==>
      SecondField(name, '_').Some? && (FirstField(name, '_') == "disable" || FirstField(name, '_') == "enable")
    ensures r.Some? ==> SecondField(name, '_') == Some(r.value.extensionId)
    ensures r.Some? ==> (r.value.shouldEnable <==> FirstField(name, '_') == "enable")
  {
    var action, id := FirstField(name, '_'), SecondField(name, '_');
    if id.None? then None
    else if action == "disable" then Some(RuleAction(id.value, false))
    else if action == "enable" then Some(RuleAction(id.value, true))
    else None
  }

  /** handleAlarm recovers the extension and the action from every alarm name the
      scheduler creates, for ids without `_` (browser extension ids are 32 letters). */
  lemma ParseActionAlarmRoundTrip(a: RuleAction)
    requires '_' !in a.extensionId
    ensures ParseActionAlarm(ActionAlarmName(a)) == Some(a)
  {
    if a.shouldEnable {
      assert ActionAlarmName(a) == "enable" + ['_'] + a.extensionId;
      SplitJoined("enable", '_', a.extensionId);
    } else {
      assert ActionAlarmName(a) == "disable" + ['_'] + a.extensionId;
      SplitJoined("disable", '_', a.extensionId);
    }
  }

  /** A name whose first `_`-field is neither `disable` nor `enable` asks for
      nothing. */
  lemma ForeignNameIgnored(name: string)
    requires FirstField(name, '_') != "disable" && FirstField(name, '_') != "enable"
    ensures ParseActionAlarm(name) == None
  {
  }

  /** The lock engine's alarm names `<id>_window_start` and `<id>_window_end`
      have the extension id as their first `_`-field, so for an id without `_`
      that is not itself `disable` or `enable` they ask this handler for nothing. */
  lemma LockAlarmNamesIgnored(id: string)
    requires '_' !in id && id != "disable" && id != "enable"
    ensures ParseActionAlarm(LockScheduler.StartAlarmName(id)) == None
    ensures ParseActionAlarm(LockScheduler.EndAlarmName(id)) == None
  {
    LockNameIgnored(id, LockScheduler.START_SUFFIX);
    LockNameIgnored(id, LockScheduler.END_SUFFIX);
  }

  lemma LockNameIgnored(id: string, suffix: string)
    requires '_' !in id && id != "disable" && id != "enable"
    requires |suffix| > 0 && suffix[0] == '_'
    ensures ParseActionAlarm(id + suffix) == None
  {
    assert id + suffix == id + ['_'] + suffix[1..];
    FirstFieldJoined(id, '_', suffix[1..]);
    ForeignNameIgnored(id + suffix);
  }

  // ---------------------------------------------------------------------------
  // Alarm schedule

  /** `s` is empty or made of decimal digits only. */
  predicate AllDigits(s: string) {
    forall i :: 0 <= i < |s| ==> IsDigit(s[i])
  }

  /** The decimal value of a string of digits; the empty string is 0, as
      `Number("")` is in JavaScript. */
  function DigitsValue(s: string): nat
    requires AllDigits(s)
  {
    if s == [] then 0 else 10 * DigitsValue(s[..|s| - 1]) + DigitValue(s[|s| - 1])
  }

  /** `const [hours, minutes] = time.split(':').map(Number)` for fields made of
      digits: the first two fields as numbers, with no bound on either. A time
      without `:` leaves the minutes `undefined`, so the date becomes invalid and
      no alarm time exists; that case, and fields with other characters, give None. */
  function TimeFields(time: string): (r: Option<(nat, nat)>)
    ensures r.Some? ==> ':' in time
  {
    FieldsWithoutSeparatorIfAbsent(time);
    match SecondField(time, ':')
    case None => None
    case Some(second) =>
      var first := FirstField(time, ':');
      if AllDigits(first) && AllDigits(second) then Some((DigitsValue(first), DigitsValue(second))) else None
  }

  /** A time without `:` has no second field. */
  lemma FieldsWithoutSeparatorIfAbsent(time: string)
    ensures ':' !in time ==> SecondField(time, ':') == None
  {
    if ':' !in time {
      FieldsWithoutSeparator(time, ':');
    }
  }

  /** A time that schedules an alarm. */
  predicate HasFireTime(time: string) {
    TimeFields(time).Some?
  }

  /** On an `H:MM`/`HH:MM` time, `split(':').map(Number)` reads the hours and
      the minutes that the time format names. */
  lemma ValidTimeFields(s: string)
    requires IsValidTime(s)
    ensures TimeFields(s) == Some((Hours(s), Minutes(s)))
  {
    var k := if |s| == 4 then 1 else 2;
    var p, x := s[..k], s[k + 1..];
    assert s == p + [':'] + x;
    SplitJoined(p, ':', x);
    assert x == [s[|s| - 2], s[|s| - 1]];
    TwoDigits(s[|s| - 2], s[|s| - 1]);
    if k == 2 {
      assert p == [s[0], s[1]];
      TwoDigits(s[0], s[1]);
    } else {
      assert p == [s[0]];
      OneDigit(s[0]);
    }
  }

  lemma OneDigit(a: char)
    requires IsDigit(a)
    ensures AllDigits([a]) && DigitsValue([a]) == DigitValue(a)
  {
    assert [a][..0] == [];
  }

  lemma TwoDigits(a: char, b: char)
    requires IsDigit(a) && IsDigit(b)
    ensures AllDigits([a, b]) && DigitsValue([a, b]) == 10 * DigitValue(a) + DigitValue(b)
  {
    assert [a, b][..1] == [a];
    OneDigit(a);
  }

  /** The instant scheduleExtensionAlarms computes for `hours:minutes`: today's
      date with `setHours(hours, minutes, 0, 0)`, which carries hours past 23 and
      minutes past 59 over into the following days, moved one day on when it is
      not after now. It is after now and falls on the minute of the day that
      `hours:minutes` names round the clock; for an in-range time it is the next
      occurrence of that time, within a day. */
  function FireTime(now: int, hours: nat, minutes: nat): (r: int)
    ensures now < r && r % MINUTE_MS == 0
    ensures MinuteOfDay(r) == (hours * 60 + minutes) % MINUTES_PER_DAY
    ensures hours * 60 + minutes < MINUTES_PER_DAY ==> r == NextOccurrence(now, hours * 60 + minutes)
  {
    var tod := hours * 60 + minutes;
    var date := StartOfDay(now) + tod * MINUTE_MS;
    var r := if date <= now then date + DAY_MS else date;
    var k := StartOfDay(now) / DAY_MS + (if date <= now then 1 else 0);
    assert r == (k * MINUTES_PER_DAY + tod) * MINUTE_MS;
    WholeMinutes(k * MINUTES_PER_DAY + tod);
    ModDays(k, tod);
    r
  }

  /** A whole number of minutes, in milliseconds, divides back exactly. */
  lemma WholeMinutes(q: int)
    ensures (q * MINUTE_MS) / MINUTE_MS == q && (q * MINUTE_MS) % MINUTE_MS == 0
  {
  }

  /** Adding whole days does not change the minute of the day. */
  lemma ModDays(k: int, x: int)
    ensures (k * MINUTES_PER_DAY + x) % MINUTES_PER_DAY == x % MINUTES_PER_DAY
  {
    var a, b := x / MINUTES_PER_DAY, x % MINUTES_PER_DAY;
    assert k * MINUTES_PER_DAY + x == (k + a) * MINUTES_PER_DAY + b;
  }

  /** The daily alarm for `time` at `now`, as scheduleExtensionAlarms creates it:
      it fires after now on the minute the time names round the clock, repeats
      every 1440 minutes, and for an `H:MM`/`HH:MM` time it is the next occurrence
      of that time, within a day. None when the time gives no valid date. */
  function RuleAlarm(time: string, now: int): (a: Option<Alarm>)
    ensures a.Some? <==> HasFireTime(time)
    ensures a.Some? ==> now < a.value.when && a.value.periodInMinutes == MINUTES_PER_DAY
    ensures a.Some? ==> MinuteOfDay(a.value.when) == (TimeFields(time).value.0 * 60 + TimeFields(time).value.1) % MINUTES_PER_DAY
    ensures IsValidTime(time) ==> a == Some(Alarm(NextOccurrence(now, ToMinutes(time)), MINUTES_PER_DAY))
  {
    var fields := TimeFields(time);
    assert IsValidTime(time) ==> fields == Some((Hours(time), Minutes(time))) by {
      if IsValidTime(time) {
        ValidTimeFields(time);
      }
    }
    match fields
    case None => None
    case Some((hours, minutes)) => Some(Alarm(FireTime(now, hours, minutes), MINUTES_PER_DAY))
  }

  /** Times outside `H:MM`/`HH:MM` are scheduled too, whenever both fields are
      digits: at 00:30, `25:00` fires at 01:00 the next day, more than a day ahead. */
  lemma RolledOverTimeBeyondDay()
    ensures RuleAlarm("25:00", 30 * MINUTE_MS) == Some(Alarm(DAY_MS + HOUR_MS, MINUTES_PER_DAY))
    ensures DAY_MS + HOUR_MS > 30 * MINUTE_MS + DAY_MS
  {
    assert "25:00" == ['2', '5'] + [':'] + ['0', '0'];
    SplitJoined(['2', '5'], ':', ['0', '0']);
    TwoDigits('2', '5');
    TwoDigits('0', '0');
    assert TimeFields("25:00") == Some((25, 0));
  }

  /** `7:5` is read as 07:05. */
  lemma OneDigitMinutesScheduled()
    ensures RuleAlarm("7:5", 0) == Some(Alarm(7 * HOUR_MS + 5 * MINUTE_MS, MINUTES_PER_DAY))
  {
    assert "7:5" == ['7'] + [':'] + ['5'];
    SplitJoined(['7'], ':', ['5']);
    OneDigit('7');
    OneDigit('5');
    assert TimeFields("7:5") == Some((7, 5));
  }

  /** Fields past the second are ignored: an `H:MM`/`HH:MM` time followed by a
      seconds field, such as `07:00:00`, is scheduled as the time alone. */
  lemma SecondsFieldIgnored(time: string, rest: string, now: int)
    requires IsValidTime(time)
    ensures RuleAlarm(time + [':'] + rest, now) == RuleAlarm(time, now)
  {
    var k := |time| - 3;
    var p, x := time[..k], time[k + 1..];
    assert AllDigits(p) && AllDigits(x);
    assert time == p + [':'] + x;
    SplitJoined(p, ':', x);
    LeadingTimeFields(time + [':'] + rest, p, x, rest);
  }

  /** The hours and minutes of a time with more than two fields are its first two. */
  lemma LeadingTimeFields(time: string, p: string, x: string, rest: string)
    requires AllDigits(p) && AllDigits(x) && time == p + [':'] + x + [':'] + rest
    ensures TimeFields(time) == Some((DigitsValue(p), DigitsValue(x)))
  {
    assert ':' !in p && ':' !in x;
    SplitJoinedPrefix(p, ':', x, rest);
  }

  /** `7:` is read as 07:00, an empty field being 0, while `7` has no minutes
      field and schedules nothing. */
  lemma EmptyMinutesField()
    ensures RuleAlarm("7:", 0) == Some(Alarm(7 * HOUR_MS, MINUTES_PER_DAY))
    ensures RuleAlarm("7", 0) == None
  {
    assert "7:" == ['7'] + [':'] + [];
    SplitJoined(['7'], ':', []);
    OneDigit('7');
    assert TimeFields("7:") == Some((7, 0));
    FieldsWithoutSeparator("7", ':');
  }

  /** The alarm registered under `name`, if any. */
  function AlarmAt(registry: map<string, Alarm>, name: string): Option<Alarm> {
    if name in registry then Some(registry[name]) else None
  }

  /** One step of scheduleExtensionAlarms: read the two fields of the time, set
      today's date to them, and move it one day on when that is not after now. */
  method NextFireTime(time: string, now: int) returns (when: Option<int>)
    ensures when.Some? <==> HasFireTime(time)
    ensures when.Some? ==> RuleAlarm(time, now) == Some(Alarm(when.value, MINUTES_PER_DAY))
    ensures IsValidTime(time) ==> when == Some(NextOccurrence(now, ToMinutes(time)))
  {
    if IsValidTime(time) {
      ValidTimeFields(time);
    }
    var fields := TimeFields(time);
    if fields.None? {
      return None;
    }
    var (hours, minutes) := fields.value;
    var date := now;
    date := StartOfDay(date) + hours * HOUR_MS + minutes * MINUTE_MS;
    if date <= now {
      date := date + DAY_MS;
    }
    assert date == FireTime(now, hours, minutes);
    return Some(date);
  }

  /** `registry` with `name` set to `alarm`, or unchanged when there is none. */
  function PutAlarm(registry: map<string, Alarm>, name: string, alarm: Option<Alarm>): map<string, Alarm> {
    if alarm.Some? then registry[name := alarm.value] else registry
  }

  /** `registry` after scheduleExtensionAlarms for `extensionId` and `rule` at `now`. */
  function WithRuleAlarms(registry: map<string, Alarm>, extensionId: string, rule: TimeRule, now: int): map<string, Alarm> {
    PutAlarm(PutAlarm(registry, DisableAlarmName(extensionId), RuleAlarm(rule.disableTime, now)),
             EnableAlarmName(extensionId), RuleAlarm(rule.enableTime, now))
  }

  /** `scheduleExtensionAlarms`: (re)create the disable and the enable alarm of
      one rule, each at its time's RuleAlarm instant, repeating daily; a time
      without two numeric fields gets no alarm. The instant is the next
      occurrence of the time only for `H:MM`/`HH:MM` times. */
  method ScheduleExtensionAlarms(alarms: Alarms, extensionId: string, rule: TimeRule, now: int)
    modifies alarms
    ensures alarms.registry == WithRuleAlarms(old(alarms.registry), extensionId, rule, now)
  {
    var disableAt := NextFireTime(rule.disableTime, now);
    if disableAt.Some? {
      alarms.Create(DisableAlarmName(extensionId), disableAt.value, MINUTES_PER_DAY);
    }
    var enableAt := NextFireTime(rule.enableTime, now);
    if enableAt.Some? {
      alarms.Create(EnableAlarmName(extensionId), enableAt.value, MINUTES_PER_DAY);
    }
  }

  /** The alarm names the enabled rules own: one per time with two numeric fields. */
  function TimeAlarmNames(rules: map<string, TimeRule>): set<string> {
    (set id | id in rules && rules[id].enabled && HasFireTime(rules[id].disableTime) :: DisableAlarmName(id))
    + (set id | id in rules && rules[id].enabled && HasFireTime(rules[id].enableTime) :: EnableAlarmName(id))
  }

  /** The names one rule contributes. */
  function RuleAlarmNames(extensionId: string, rule: TimeRule): set<string> {
    (if rule.enabled && HasFireTime(rule.disableTime) then {DisableAlarmName(extensionId)} else {})
    + (if rule.enabled && HasFireTime(rule.enableTime) then {EnableAlarmName(extensionId)} else {})
  }

  /** Each enabled rule's alarms are at its times' RuleAlarm instants (the next
      occurrences after `now` for `H:MM`/`HH:MM` times), and a time without two
      numeric fields has none. */
  predicate HasRuleAlarms(registry: map<string, Alarm>, rules: map<string, TimeRule>, now: int) {
    forall id :: id in rules && rules[id].enabled ==>
      && AlarmAt(registry, DisableAlarmName(id)) == RuleAlarm(rules[id].disableTime, now)
      && AlarmAt(registry, EnableAlarmName(id)) == RuleAlarm(rules[id].enableTime, now)
  }

  /** The registry initialize builds at `now`: the alarms of the enabled rules and
      nothing else. */
  predicate IsTimeSchedule(registry: map<string, Alarm>, rules: map<string, TimeRule>, now: int) {
    registry.Keys == TimeAlarmNames(rules) && HasRuleAlarms(registry, rules, now)
  }

  /** IsTimeSchedule pins the registry down, so initialize run twice at the same
      instant on the same rules leaves the same alarms. */
  lemma TimeScheduleUnique(r1: map<string, Alarm>, r2: map<string, Alarm>, rules: map<string, TimeRule>, now: int)
    requires IsTimeSchedule(r1, rules, now) && IsTimeSchedule(r2, rules, now)
    ensures r1 == r2
  {
    forall n | n in r1
      ensures r1[n] == r2[n]
    {
      var x :| x in rules && rules[x].enabled && (n == DisableAlarmName(x) || n == EnableAlarmName(x));
      assert AlarmAt(r1, n) == AlarmAt(r2, n);
    }
  }

  /** Every alarm of the schedule fires first strictly after `now` and repeats
      every 1440 minutes. The alarm of an `H:MM`/`HH:MM` time fires at most a day
      later; a rolled-over time may fire later (RolledOverTimeBeyondDay). */
  lemma TimeScheduleBounds(registry: map<string, Alarm>, rules: map<string, TimeRule>, now: int)
    requires IsTimeSchedule(registry, rules, now)
    ensures forall n :: n in registry ==>
      now < registry[n].when && registry[n].periodInMinutes == MINUTES_PER_DAY
    ensures forall id :: id in rules && rules[id].enabled && IsValidTime(rules[id].disableTime) ==>
      DisableAlarmName(id) in registry && registry[DisableAlarmName(id)].when <= now + DAY_MS
    ensures forall id :: id in rules && rules[id].enabled && IsValidTime(rules[id].enableTime) ==>
      EnableAlarmName(id) in registry && registry[EnableAlarmName(id)].when <= now + DAY_MS
  {
    forall n | n in registry
      ensures now < registry[n].when && registry[n].periodInMinutes == MINUTES_PER_DAY
    {
      var x :| x in rules && rules[x].enabled && (n == DisableAlarmName(x) || n == EnableAlarmName(x));
      assert Some(registry[n]) == AlarmAt(registry, n);
    }
    forall id | id in rules && rules[id].enabled
      ensures IsValidTime(rules[id].disableTime) ==>
        DisableAlarmName(id) in registry && registry[DisableAlarmName(id)].when <= now + DAY_MS
      ensures IsValidTime(rules[id].enableTime) ==>
        EnableAlarmName(id) in registry && registry[EnableAlarmName(id)].when <= now + DAY_MS
    {
      assert AlarmAt(registry, DisableAlarmName(id)) == RuleAlarm(rules[id].disableTime, now);
      assert AlarmAt(registry, EnableAlarmName(id)) == RuleAlarm(rules[id].enableTime, now);
    }
  }

  /** Adding a rule for a new extension adds exactly its names. */
  lemma TimeAlarmNamesAdd(rules: map<string, TimeRule>, extensionId: string, rule: TimeRule)
    requires extensionId !in rules
    ensures TimeAlarmNames(rules[extensionId := rule]) == TimeAlarmNames(rules) + RuleAlarmNames(extensionId, rule)
  {
    var m := rules[extensionId := rule];
    forall n | n in TimeAlarmNames(m)
      ensures n in TimeAlarmNames(rules) + RuleAlarmNames(extensionId, rule)
    {
      var x :| x in m && m[x].enabled
        && ((n == DisableAlarmName(x) && HasFireTime(m[x].disableTime))
            || (n == EnableAlarmName(x) && HasFireTime(m[x].enableTime)));
      if x != extensionId {
        assert x in rules && rules[x] == m[x];
      }
    }
    forall n | n in TimeAlarmNames(rules) + RuleAlarmNames(extensionId, rule)
      ensures n in TimeAlarmNames(m)
    {
      if n in TimeAlarmNames(rules) {
        var x :| x in rules && rules[x].enabled
          && ((n == DisableAlarmName(x) && HasFireTime(rules[x].disableTime))
              || (n == EnableAlarmName(x) && HasFireTime(rules[x].enableTime)));
        assert x in m && m[x] == rules[x];
      } else {
        assert extensionId in m && m[extensionId] == rule;
      }
    }
  }

  /** Deleting a rule removes exactly its two names. */
  lemma TimeAlarmNamesRemove(rules: map<string, TimeRule>, extensionId: string)
    ensures TimeAlarmNames(rules - {extensionId})
            == TimeAlarmNames(rules) - {DisableAlarmName(extensionId), EnableAlarmName(extensionId)}
  {
    var m := rules - {extensionId};
    forall n | n in TimeAlarmNames(m)
      ensures n in TimeAlarmNames(rules) - {DisableAlarmName(extensionId), EnableAlarmName(extensionId)}
    {
      var x :| x in m && m[x].enabled
        && ((n == DisableAlarmName(x) && HasFireTime(m[x].disableTime))
            || (n == EnableAlarmName(x) && HasFireTime(m[x].enableTime)));
      assert x in rules && rules[x] == m[x];
      AlarmNamesDistinct(x, extensionId);
      AlarmNamesDistinct(extensionId, x);
    }
    forall n | n in TimeAlarmNames(rules) - {DisableAlarmName(extensionId), EnableAlarmName(extensionId)}
      ensures n in TimeAlarmNames(m)
    {
      var x :| x in rules && rules[x].enabled
        && ((n == DisableAlarmName(x) && HasFireTime(rules[x].disableTime))
            || (n == EnableAlarmName(x) && HasFireTime(rules[x].enableTime)));
      assert x in m && m[x] == rules[x];
    }
  }

  /** Deleting a rule and clearing its two alarms keeps the registry equal to what
      initialize would build for the remaining rules. */
  lemma TimeScheduleAfterRemove(registry: map<string, Alarm>, rules: map<string, TimeRule>, extensionId: string, now: int)
    requires IsTimeSchedule(registry, rules, now)
    ensures IsTimeSchedule(registry - {DisableAlarmName(extensionId), EnableAlarmName(extensionId)}, rules - {extensionId}, now)
  {
    TimeAlarmNamesRemove(rules, extensionId);
    var after, m := registry - {DisableAlarmName(extensionId), EnableAlarmName(extensionId)}, rules - {extensionId};
    forall x | x in m && m[x].enabled
      ensures && AlarmAt(after, DisableAlarmName(x)) == RuleAlarm(m[x].disableTime, now)
              && AlarmAt(after, EnableAlarmName(x)) == RuleAlarm(m[x].enableTime, now)
    {
      AlarmNamesDistinct(x, extensionId);
      AlarmNamesDistinct(extensionId, x);
      assert x in rules && rules[x] == m[x];
    }
  }

  /** Scheduling a rule's alarms adds exactly the names it contributes. */
  lemma WithRuleAlarmsKeys(registry: map<string, Alarm>, extensionId: string, rule: TimeRule, now: int)
    requires rule.enabled
    ensures WithRuleAlarms(registry, extensionId, rule, now).Keys == registry.Keys + RuleAlarmNames(extensionId, rule)
  {
  }

  /** Scheduling the alarms of a rule for a new extension leaves every other
      rule's alarms in place and gives the new rule its own. */
  lemma RuleAlarmsAdd(registry: map<string, Alarm>, rules: map<string, TimeRule>, extensionId: string, rule: TimeRule, now: int)
    requires HasRuleAlarms(registry, rules, now)
    requires DisableAlarmName(extensionId) !in registry && EnableAlarmName(extensionId) !in registry
    ensures HasRuleAlarms(WithRuleAlarms(registry, extensionId, rule, now), rules[extensionId := rule], now)
  {
    var after, m := WithRuleAlarms(registry, extensionId, rule, now), rules[extensionId := rule];
    forall x | x in m && m[x].enabled
      ensures && AlarmAt(after, DisableAlarmName(x)) == RuleAlarm(m[x].disableTime, now)
              && AlarmAt(after, EnableAlarmName(x)) == RuleAlarm(m[x].enableTime, now)
    {
      AlarmNamesDistinct(x, extensionId);
      AlarmNamesDistinct(extensionId, x);
    }
  }

  /** Adding an enabled rule for a new extension and scheduling its alarms keeps
      the registry equal to what initialize would build. */
  lemma TimeScheduleAfterAdd(registry: map<string, Alarm>, rules: map<string, TimeRule>, extensionId: string, rule: TimeRule, now: int)
    requires IsTimeSchedule(registry, rules, now) && extensionId !in rules && rule.enabled
    ensures IsTimeSchedule(WithRuleAlarms(registry, extensionId, rule, now), rules[extensionId := rule], now)
  {
    TimeAlarmNamesAdd(rules, extensionId, rule);
    WithRuleAlarmsKeys(registry, extensionId, rule, now);
    AlarmNamesDistinct(extensionId, extensionId);
    assert DisableAlarmName(extensionId) !in TimeAlarmNames(rules) by {
      if DisableAlarmName(extensionId) in TimeAlarmNames(rules) {
        var x :| x in rules && (DisableAlarmName(extensionId) == DisableAlarmName(x) || DisableAlarmName(extensionId) == EnableAlarmName(x));
        AlarmNamesDistinct(extensionId, x);
      }
    }
    assert EnableAlarmName(extensionId) !in TimeAlarmNames(rules) by {
      if EnableAlarmName(extensionId) in TimeAlarmNames(rules) {
        var x :| x in rules && (EnableAlarmName(extensionId) == DisableAlarmName(x) || EnableAlarmName(extensionId) == EnableAlarmName(x));
        AlarmNamesDistinct(x, extensionId);
      }
    }
    RuleAlarmsAdd(registry, rules, extensionId, rule, now);
  }

  /** `initialize`: clear every alarm, then schedule the alarms of each enabled rule. */
  method Initialize(store: Storage<TimeRule>, alarms: Alarms, now: int)
    modifies alarms
    ensures IsTimeSchedule(alarms.registry, store.items, now)
  {
    var rules := store.items;
    alarms.ClearAll();
    var pending := rules.Keys;
    ghost var done: map<string, TimeRule> := map[];
    while pending != {}
      invariant pending <= rules.Keys
      invariant done.Keys == rules.Keys - pending
      invariant forall id :: id in done ==> done[id] == rules[id]
      invariant IsTimeSchedule(alarms.registry, done, now)
      decreases pending
    {
      var id :| id in pending;
      if rules[id].enabled {
        TimeScheduleAfterAdd(alarms.registry, done, id, rules[id], now);
        ScheduleExtensionAlarms(alarms, id, rules[id], now);
      } else {
        TimeAlarmNamesAdd(done, id, rules[id]);
      }
      done := done[id := rules[id]];
      pending := pending - {id};
    }
    assert done == rules;
  }

  // ---------------------------------------------------------------------------
  // Rule edits

  /** `updateTimeRule`: refuse a second change on the same calendar day;
      otherwise store the rule stamped today and rebuild every alarm. A refusal
      changes nothing. */
  method UpdateTimeRule(store: Storage<TimeRule>, alarms: Alarms, extensionId: string,
                        disableTime: string, enableTime: string, enabled: bool, now: int)
    returns (updated: bool)
    modifies store, alarms
    ensures updated == CanEditRule(old(store.items), extensionId, now)
    ensures !updated ==> store.items == old(store.items) && alarms.registry == old(alarms.registry)
    ensures updated ==>
      && store.items == old(store.items)[extensionId := StampedRule(disableTime, enableTime, enabled, now)]
      && IsTimeSchedule(alarms.registry, store.items, now)
  {
    if !CanEditRule(store.items, extensionId, now) {
      return false;
    }
    var rules := store.items;
    rules := rules[extensionId := StampedRule(disableTime, enableTime, enabled, now)];
    store.Set(rules);
    Initialize(store, alarms, now);
    return true;
  }

  /** `deleteRule`: remove the rule and clear both of its alarm names. */
  method DeleteRule(store: Storage<TimeRule>, alarms: Alarms, extensionId: string)
    modifies store, alarms
    ensures store.items == old(store.items) - {extensionId}
    ensures alarms.registry == old(alarms.registry) - {DisableAlarmName(extensionId), EnableAlarmName(extensionId)}
    ensures old(alarms.registry.Keys) == TimeAlarmNames(old(store.items)) ==>
      alarms.registry.Keys == TimeAlarmNames(store.items)
  {
    TimeAlarmNamesRemove(store.items, extensionId);
    var rules := store.items;
    rules := rules - {extensionId};
    store.Set(rules);
    alarms.Clear(DisableAlarmName(extensionId));
    alarms.Clear(EnableAlarmName(extensionId));
  }

  // ---------------------------------------------------------------------------
  // Alarm handling

  /** toggleExtension acts when the extension is installed and its state differs
      from the one asked for. */
  predicate ToggleDue(installed: map<string, bool>, extensionId: string, shouldEnable: bool) {
    extensionId in installed && installed[extensionId] != shouldEnable
  }

  /** The enabled flags after toggleExtension. */
  function AfterToggle(installed: map<string, bool>, extensionId: string, shouldEnable: bool): map<string, bool> {
    if ToggleDue(installed, extensionId, shouldEnable) then installed[extensionId := shouldEnable] else installed
  }

  /** After a toggle an installed extension is in the state asked for, no other
      extension changed, and a repeated toggle has nothing to do. */
  lemma ToggleSettles(installed: map<string, bool>, extensionId: string, shouldEnable: bool)
    ensures var after := AfterToggle(installed, extensionId, shouldEnable);
      && after.Keys == installed.Keys
      && (forall x :: x in installed && x != extensionId ==> after[x] == installed[x])
      && (extensionId in installed ==> after[extensionId] == shouldEnable)
      && !ToggleDue(after, extensionId, shouldEnable)
      && AfterToggle(after, extensionId, shouldEnable) == after
  {
  }

  /** `toggleExtension`: set the extension's state only when it differs; an
      extension that is not installed is left alone. */
  method ToggleExtension(management: Management, extensionId: string, shouldEnable: bool)
    modifies management
    ensures management.enabled == AfterToggle(old(management.enabled), extensionId, shouldEnable)
    ensures management.setEnabledCalls == old(management.setEnabledCalls)
      + (if ToggleDue(old(management.enabled), extensionId, shouldEnable) then [(extensionId, shouldEnable)] else [])
  {
    var info := management.Get(extensionId);
    if info.None? || info.value == shouldEnable {
      return;
    }
    management.SetEnabled(extensionId, shouldEnable);
  }

  /** `handleAlarm`: `disable_<id>` turns the extension off, `enable_<id>` turns
      it on, and any other name does nothing. */
  method HandleAlarm(management: Management, alarmName: string)
    modifies management
    ensures match ParseActionAlarm(alarmName)
      case None =>
        && management.enabled == old(management.enabled)
        && management.setEnabledCalls == old(management.setEnabledCalls)
      case Some(RuleAction(id, on)) =>
        && management.enabled == AfterToggle(old(management.enabled), id, on)
        && management.setEnabledCalls == old(management.setEnabledCalls)
             + (if ToggleDue(old(management.enabled), id, on) then [(id, on)] else [])
  {
    var action := ParseActionAlarm(alarmName);
    if action.Some? {
      ToggleExtension(management, action.value.extensionId, action.value.shouldEnable);
    }
  }

  // ---------------------------------------------------------------------------
  // Scenarios

  /** A rule updated at 10:00 refuses a second update at 18:00 the same day and
      leaves the first in place. */
  method UpdateTwiceScenario(store: Storage<TimeRule>, alarms: Alarms)
    requires store.items == map[]
    modifies store, alarms
  {
    assert Today(10 * HOUR_MS) == Today(18 * HOUR_MS) == 0;
    var ok := UpdateTimeRule(store, alarms, "ext", "22:00", "07:00", true, 10 * HOUR_MS);
    assert ok;
    var first := store.items;
    var ok2 := UpdateTimeRule(store, alarms, "ext", "23:00", "06:00", true, 18 * HOUR_MS);
    assert !ok2 && store.items == first;
  }

  /** The disable alarm turns an extension that is on off; firing again calls
      setEnabled no more. */
  method DisableAlarmScenario()
  {
    var management := new Management(map["ext" := true]);
    ParseActionAlarmRoundTrip(RuleAction("ext", false));
    HandleAlarm(management, DisableAlarmName("ext"));
    assert !management.enabled["ext"];
    HandleAlarm(management, DisableAlarmName("ext"));
    assert management.setEnabledCalls == [("ext", false)];
  }
}
