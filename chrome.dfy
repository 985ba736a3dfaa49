/** The browser services both schedulers call, as plain state: chrome.storage,
    chrome.alarms, chrome.management and chrome.notifications. Only the effect of
    each call on that state is modelled; the calls' asynchrony is not. */
module Chrome {
  import opened Wrappers

  /** An alarm: its next fire time (ms) and its repeat period in minutes. */
  datatype Alarm = Alarm(when: int, periodInMinutes: int)

  /** One storage area holding a scheduler's dictionary under its key. A key never
      written reads as the empty dictionary (`result[key] || {}`). */
  class Storage<V> {
    var items: map<string, V>

    constructor ()
      ensures items == map[]
    {
      items := map[];
    }

    /** `set({ [key]: newItems })`: the whole dictionary is written back. */
    method Set(newItems: map<string, V>)
      modifies this
      ensures items == newItems
    {
      items := newItems;
    }
  }

  /** chrome.alarms: the registered alarms by name. */
  class Alarms {
    var registry: map<string, Alarm>

    constructor ()
      ensures registry == map[]
    {
      registry := map[];
    }

    /** `create(name, {when, periodInMinutes})` replaces an alarm of the same name. */
    method Create(name: string, when: int, periodInMinutes: int)
      modifies this
      ensures registry == old(registry)[name := Alarm(when, periodInMinutes)]
    {
      registry := registry[name := Alarm(when, periodInMinutes)];
    }

    /** `clear(name)`; clearing an unknown name is not an error. */
    method Clear(name: string)
      modifies this
      ensures registry == old(registry) - {name}
    {
      registry := registry - {name};
    }

    method ClearAll()
      modifies this
      ensures registry == map[]
    {
      registry := map[];
    }
  }

  /** chrome.management: each installed extension's enabled flag, and the log of
      the setEnabled calls made, in order. */
  class Management {
    var enabled: map<string, bool>
    var setEnabledCalls: seq<(string, bool)>

    constructor (installed: map<string, bool>)
      ensures enabled == installed && setEnabledCalls == []
    {
      enabled := installed;
      setEnabledCalls := [];
    }

    /** `get(id)`: the extension's enabled flag; None where the call rejects
        because no extension has that id. */
    method Get(id: string) returns (info: Option<bool>)
      ensures info == if id in enabled then Some(enabled[id]) else None
    {
      info := if id in enabled then Some(enabled[id]) else None;
    }

    method SetEnabled(id: string, on: bool)
      requires id in enabled
      modifies this
      ensures enabled == old(enabled)[id := on]
      ensures setEnabledCalls == old(setEnabledCalls) + [(id, on)]
    {
      enabled := enabled[id := on];
      setEnabledCalls := setEnabledCalls + [(id, on)];
    }
  }

  /** chrome.notifications: the ids of the notifications created, in order. */
  class Notifications {
    var created: seq<string>

    constructor ()
      ensures created == []
    {
      created := [];
    }

    method Create(notificationId: string)
      modifies this
      ensures created == old(created) + [notificationId]
    {
      created := created + [notificationId];
    }
  }
}
