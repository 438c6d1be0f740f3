/**
 * `auto_refreshable_setting(name)`: a reader that holds a setting's value
 * and is told of every `setting_modified` notification. As written its
 * handler never changes the held value (the assignment in the handler
 * binds a name local to the handler); `RefreshingSetting` is the reader
 * that keeps the value of the last notification for its name.
 */
module AutoRefresh {
  import opened Wrappers
  import opened SettingStore
  import Models

  /** The notifications about `name`, in the order they were sent. */
  function Matching(events: seq<Event>, name: string): seq<Event> {
    if events == [] then []
    else (if events[0].name == name then [events[0]] else []) + Matching(events[1..], name)
  }

  lemma {:induction false} MatchingAppend(events: seq<Event>, e: Event, name: string)
    ensures Matching(events + [e], name) == Matching(events, name) + (if e.name == name then [e] else [])
  {
    if events != [] {
      assert (events + [e])[1..] == events[1..] + [e];
      MatchingAppend(events[1..], e, name);
    }
  }

  /** The value a refreshing reader holds, starting from `initial`, after being told of `events`. */
  function Refreshed(initial: Value, name: string, events: seq<Event>): Value {
    if events == [] then initial
    else if events[|events| - 1].name == name then events[|events| - 1].value
    else Refreshed(initial, name, events[..|events| - 1])
  }

  /** The refreshed value is the value of the last notification about the name, or the initial one when there is none. */
  lemma {:induction false} RefreshedIsLastMatching(initial: Value, name: string, events: seq<Event>)
    ensures var m := Matching(events, name);
      Refreshed(initial, name, events) == if m == [] then initial else m[|m| - 1].value
  {
    if events != [] {
      var front := events[..|events| - 1];
      var e := events[|events| - 1];
      assert events == front + [e];
      MatchingAppend(front, e, name);
      RefreshedIsLastMatching(initial, name, front);
    }
  }

  /**
   * After a successful write of `v` under the name, a refreshing reader holds
   * `v`, whatever it held before, and the store answers `v` as it reads back.
   */
  lemma RefreshedAfterWrite(db: Db, name: string, t: SettingType, v: Value, initial: Value, earlier: seq<Event>)
    requires Valid(db) && Healthy(db, name) && Admissible(t, v)
    ensures Refreshed(initial, name, earlier + Emitted(name, v, SetValue(db, name, t, v))) == v
    ensures GetValue(SetValue(db, name, t, v).db, name, None) == Success(ReadBack(v))
  {
    GetAfterSet(db, name, t, v, None);
    assert earlier + Emitted(name, v, SetValue(db, name, t, v)) == earlier + [Event(name, v)];
  }

  /** The reader as written: the handler looks at each notification but the held value never changes. */
  class CachedSetting {
    const name: string
    var value: Value
    ghost var observed: seq<Event>

    constructor (name: string, value: Value)
      ensures this.name == name && this.value == value && observed == []
    {
      this.name := name;
      this.value := value;
      observed := [];
    }

    /** The getter: the held value. */
    method Get() returns (v: Value)
      ensures v == value
    {
      v := value;
    }

    /** The signal handler: a matching notification is noticed, and its value bound to a handler-local name. */
    method Handle(ev: Event)
      modifies this
      ensures value == old(value)
      ensures observed == old(observed) + (if ev.name == name then [ev] else [])
    {
      if ev.name == name {
        var value := ev.value;
        observed := observed + [ev];
      }
    }

    /** Handling a sequence of notifications: all matching ones are noticed, the held value stays. */
    method Deliver(events: seq<Event>)
      modifies this
      ensures value == old(value)
      ensures observed == old(observed) + Matching(events, name)
    {
      var i := 0;
      while i < |events|
        invariant 0 <= i <= |events|
        invariant value == old(value)
        invariant observed == old(observed) + Matching(events[..i], name)
      {
        MatchingAppend(events[..i], events[i], name);
        assert events[..i + 1] == events[..i] + [events[i]];
        Handle(events[i]);
        assert observed == old(observed) + Matching(events[..i + 1], name);
        i := i + 1;
      }
      assert events[..i] == events;
    }
  }

  /** The corrected reader: the handler stores the value of a matching notification. */
  class RefreshingSetting {
    const name: string
    var value: Value

    constructor (name: string, value: Value)
      ensures this.name == name && this.value == value
    {
      this.name := name;
      this.value := value;
    }

    /** The getter: the held value. */
    method Get() returns (v: Value)
      ensures v == value
    {
      v := value;
    }

    /** The signal handler: a matching notification replaces the held value. */
    method Handle(ev: Event)
      modifies this
      ensures value == Refreshed(old(value), name, [ev])
    {
      if ev.name == name {
        value := ev.value;
      }
    }

    /** Handling a sequence of notifications leaves the value of the last matching one. */
    method Deliver(events: seq<Event>)
      modifies this
      ensures value == Refreshed(old(value), name, events)
    {
      var i := 0;
      while i < |events|
        invariant 0 <= i <= |events|
        invariant value == Refreshed(old(value), name, events[..i])
      {
        assert events[..i + 1][..i] == events[..i];
        Handle(events[i]);
        i := i + 1;
      }
      assert events[..i] == events;
    }
  }

  /** `auto_refreshable_setting(name)`: the value is read once, with no default, when the reader is made. */
  method AutoRefreshableSetting(m: Models.SettingManager, name: string) returns (r: Result<CachedSetting, Error>)
    ensures r.Failure? ==> GetValue(m.State(), name, None) == Failure(r.error)
    ensures r.Success? ==> GetValue(m.State(), name, None) == Success(r.value.value)
    ensures r.Success? ==> fresh(r.value) && r.value.name == name && r.value.observed == []
  {
    var got := m.GetValue(name, None);
    if got.Failure? {
      return Failure(got.error);
    }
    var reader := new CachedSetting(name, got.value);
    r := Success(reader);
  }

  /** The corrected `auto_refreshable_setting(name)`. */
  method RefreshingReader(m: Models.SettingManager, name: string) returns (r: Result<RefreshingSetting, Error>)
    ensures r.Failure? ==> GetValue(m.State(), name, None) == Failure(r.error)
    ensures r.Success? ==> GetValue(m.State(), name, None) == Success(r.value.value)
    ensures r.Success? ==> fresh(r.value) && r.value.name == name
  {
    var got := m.GetValue(name, None);
    if got.Failure? {
      return Failure(got.error);
    }
    var reader := new RefreshingSetting(name, got.value);
    r := Success(reader);
  }

  /**
   * A write through the manager, with its notification handed to the
   * as-written reader: the store now answers `v` as it reads back, while the reader still
   * returns what it held before.
   */
  method StaleAfterWrite(m: Models.SettingManager, reader: CachedSetting, t: SettingType, v: Value)
    returns (stored: Result<Value, Error>, cached: Value)
    requires m.Valid() && Healthy(m.State(), reader.name) && Admissible(t, v)
    modifies m, reader
    ensures m.log == old(m.log) + [Event(reader.name, v)]
    ensures stored == Success(ReadBack(v))
    ensures cached == old(reader.value)
  {
    stored := Models.WriteThenRead(m, reader.name, t, v);
    reader.Handle(Event(reader.name, v));
    cached := reader.Get();
  }

  /** The same write handed to the corrected reader: reader and store agree on `v`. */
  method FreshAfterWrite(m: Models.SettingManager, reader: RefreshingSetting, t: SettingType, v: Value)
    returns (stored: Result<Value, Error>, cached: Value)
    requires m.Valid() && Healthy(m.State(), reader.name) && Admissible(t, v)
    modifies m, reader
    ensures m.log == old(m.log) + [Event(reader.name, v)]
    ensures stored == Success(ReadBack(v))
    ensures cached == v
  {
    stored := Models.WriteThenRead(m, reader.name, t, v);
    reader.Handle(Event(reader.name, v));
    cached := reader.Get();
  }
}
