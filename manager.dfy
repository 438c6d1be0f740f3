/**
 * The `Setting` model and its manager as objects: the manager owns the
 * tables and the record of notifications sent; a `Setting` is one loaded
 * setting row together with its value object.
 */
module Models {
  import opened Wrappers
  import opened SettingStore

  /** A loaded setting row; `settingObject` is its resolved value object, `None` when that object is gone. */
  class Setting {
    var name: string
    var settingType: SettingType
    var settingId: nat
    var settingObject: Option<Value>

    constructor (e: Entry, obj: Option<Value>)
      ensures name == e.name && settingType == e.settingType && settingId == e.settingId
      ensures settingObject == obj
    {
      name := e.name;
      settingType := e.settingType;
      settingId := e.settingId;
      settingObject := obj;
    }

    /** The setting row as stored. */
    function Record(): Entry
      reads this
    {
      Entry(name, settingType, settingId)
    }

    /** The `value` property read: the value object's value; a setting without one fails. */
    method GetValue() returns (r: Result<Value, Error>)
      ensures settingObject.Some? ==> r == Success(settingObject.value)
      ensures settingObject.None? ==> r == Failure(NoValueObject(name))
    {
      if settingObject.None? {
        return Failure(NoValueObject(name));
      }
      r := Success(settingObject.value);
    }

    /**
     * The `value` property written: the value object's value is replaced in
     * memory only; nothing is stored, nothing is checked, nothing is sent.
     */
    method SetValue(v: Value) returns (r: Result<(), Error>)
      modifies this
      ensures old(settingObject).None? ==> r == Failure(NoValueObject(name)) && settingObject == None
      ensures old(settingObject).Some? ==> r == Success(()) && settingObject == Some(v)
      ensures Record() == old(Record())
    {
      if settingObject.None? {
        return Failure(NoValueObject(name));
      }
      settingObject := Some(v);
      r := Success(());
    }
  }

  /** `Setting.objects`: the tables, the id counter, and every `setting_modified` notification sent. */
  class SettingManager {
    var entries: seq<Entry>
    var rows: map<nat, Row>
    var nextId: nat
    ghost var log: seq<Event>

    function State(): Db
      reads this
    {
      Db(entries, rows, nextId)
    }

    ghost predicate Valid()
      reads this
    {
      SettingStore.Valid(State())
    }

    /** An empty database. */
    constructor ()
      ensures State() == EmptyDb && log == []
      ensures Valid()
    {
      entries := [];
      rows := map[];
      nextId := 0;
      log := [];
    }

    /** `value_object_exists(name)`. */
    method ValueObjectExists(name: string) returns (b: bool)
      ensures b == SettingStore.ValueObjectExists(State(), name)
    {
      var first := FirstNamed(entries, name);
      b := first.Some? && entries[first.value].settingId in rows;
    }

    /** `get(name=name)`: the setting row with its value object loaded. */
    method Load(name: string) returns (r: Result<Setting, Error>)
      ensures r.Failure? ==> SettingStore.GetValue(State(), name, None) == Failure(r.error)
      ensures r.Success? ==> fresh(r.value) && r.value.name == name
      ensures r.Success? ==>
        GetNamed(entries, name).Success? && r.value.Record() == entries[GetNamed(entries, name).value]
      ensures r.Success? && r.value.settingObject.Some? ==>
        SettingStore.GetValue(State(), name, None) == Success(r.value.settingObject.value)
      ensures r.Success? && r.value.settingObject.None? ==>
        SettingStore.GetValue(State(), name, None) == Failure(NoValueObject(name))
    {
      var got := GetNamed(entries, name);
      if got.Failure? {
        return Failure(got.error);
      }
      var e := entries[got.value];
      var obj: Option<Value> := None;
      if e.settingId in rows {
        var decoded := Decode(rows[e.settingId]);
        if decoded.Failure? {
          return Failure(decoded.error);
        }
        obj := Some(decoded.value);
      }
      var setting := new Setting(e, obj);
      r := Success(setting);
    }

    /** `get_value(name)`, or `get_value(name, default=d)` when `default` is `Some(d)`. */
    method GetValue(name: string, default: Option<Value>) returns (r: Result<Value, Error>)
      ensures r == SettingStore.GetValue(State(), name, default)
    {
      if default.Some? {
        var present := ValueObjectExists(name);
        if !present {
          return Success(default.value);
        }
      }
      var setting := Load(name);
      if setting.Failure? {
        return Failure(setting.error);
      }
      r := setting.value.GetValue();
    }

    /**
     * `set_value(name, SettingClass, value)`: the new state is the one the
     * store's `SetValue` describes, the store stays valid, and the one
     * notification of a successful write is recorded.
     */
    method SetValue(name: string, t: SettingType, v: Value) returns (r: Result<Setting, Error>)
      requires Valid()
      modifies this
      ensures Valid()
      ensures State() == SettingStore.SetValue(old(State()), name, t, v).db
      ensures log == old(log) + Emitted(name, v, SettingStore.SetValue(old(State()), name, t, v))
      ensures r.Failure? ==> SettingStore.SetValue(old(State()), name, t, v).result == Failure(r.error)
      ensures r.Success? ==>
        && SettingStore.SetValue(old(State()), name, t, v).result == Success(r.value.Record())
        && fresh(r.value) && r.value.settingObject == Some(v)
    {
      ghost var before := State();
      SetValuePreservesValid(before, name, t, v);
      var slot: Option<nat> := None;
      var present := ValueObjectExists(name);
      if present {
        var got := GetNamed(entries, name);
        if got.Failure? {
          return Failure(got.error);
        }
        slot := Some(got.value);
        rows := rows - {entries[got.value].settingId};
      }
      r := CreateAndLink(slot, name, t, v);
    }

    /**
     * `SettingClass.objects.create(value=value)`, then linking the new
     * value object to the setting row, saving it, and sending the
     * notification.
     */
    method CreateAndLink(slot: Option<nat>, name: string, t: SettingType, v: Value) returns (r: Result<Setting, Error>)
      requires slot.Some? ==> slot.value < |entries|
      modifies this
      ensures State() == Create(old(State()), slot, name, t, v).db
      ensures log == old(log) + Emitted(name, v, Create(old(State()), slot, name, t, v))
      ensures r.Failure? ==> Create(old(State()), slot, name, t, v).result == Failure(r.error)
      ensures r.Success? ==>
        && Create(old(State()), slot, name, t, v).result == Success(r.value.Record())
        && fresh(r.value) && r.value.settingObject == Some(v)
    {
      if !Admissible(t, v) {
        return Failure(InvalidValue(t, v));
      }
      var e := Entry(name, t, nextId);
      rows := rows[nextId := Encode(v)];
      nextId := nextId + 1;
      if slot.Some? {
        entries := entries[slot.value := e];
      } else {
        entries := entries + [e];
      }
      log := log + [Event(name, v)];
      var setting := new Setting(e, Some(v));
      r := Success(setting);
    }
  }

  /**
   * A write followed by a read of the same healthy name returns what was
   * written, as it reads back.
   */
  method WriteThenRead(m: SettingManager, name: string, t: SettingType, v: Value) returns (got: Result<Value, Error>)
    requires m.Valid() && Healthy(m.State(), name) && Admissible(t, v)
    modifies m
    ensures got == Success(ReadBack(v))
    ensures m.Valid() && Healthy(m.State(), name) && CountNamed(m.entries, name) == 1
    ensures m.log == old(m.log) + [Event(name, v)]
  {
    GetAfterSet(m.State(), name, t, v, None);
    var written := m.SetValue(name, t, v);
    got := m.GetValue(name, None);
  }

  /**
   * Writing an integer and then a string under one name: each read returns
   * the last value written, one setting row stays linked to one value
   * object, and one notification is sent per write.
   */
  method ReplaceByOtherType(m: SettingManager, name: string, n: int, s: string)
    returns (first: Result<Value, Error>, second: Result<Value, Error>)
    requires m.Valid() && Healthy(m.State(), name)
    modifies m
    ensures first == Success(IntegerValue(n)) && second == Success(StringValue(s))
    ensures m.Valid() && Healthy(m.State(), name) && CountNamed(m.entries, name) == 1
    ensures m.log == old(m.log) + [Event(name, IntegerValue(n)), Event(name, StringValue(s))]
  {
    first := WriteThenRead(m, name, Integer, IntegerValue(n));
    second := WriteThenRead(m, name, String, StringValue(s));
  }
}
