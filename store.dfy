/**
 * The setting store: `Setting` rows (a name, a value type and the id of a
 * value object) and the value-object rows they point at, and the
 * `SettingManager` operations over them, as functions of the store's state.
 */
module SettingStore {
  import opened Wrappers
  import TimedeltaField

  /** The value kinds a setting can hold. */
  datatype SettingType = String | Integer | PositiveInteger | TimeDelta

  /** A value as the program sees it. */
  datatype Value =
    | StringValue(s: string)
    | IntegerValue(i: int)
    | PositiveIntegerValue(n: int)
    | TimeDeltaValue(d: TimedeltaField.Duration)

  function TypeOf(v: Value): SettingType {
    match v
    case StringValue(_) => String
    case IntegerValue(_) => Integer
    case PositiveIntegerValue(_) => PositiveInteger
    case TimeDeltaValue(_) => TimeDelta
  }

  /**
   * What creating a value object of type `t` accepts in this model: a value
   * of that type, and no negative positive integer. It stands in for the
   * conversion a column applies to the value as it is saved.
   */
  predicate Admissible(t: SettingType, v: Value) {
    TypeOf(v) == t && (v.PositiveIntegerValue? ==> v.n >= 0)
  }

  /** The stored `value` column of a value object: a duration is kept as its text. */
  datatype Row =
    | StringRow(s: string)
    | IntegerRow(i: int)
    | PositiveIntegerRow(n: int)
    | TimeDeltaRow(text: string)

  datatype Error =
    | DoesNotExist(name: string)
    | MultipleObjectsReturned(name: string)
    | NoValueObject(name: string)
    | InvalidValue(settingType: SettingType, value: Value)
    | ValidationError(error: TimedeltaField.ValidationError)

  /** The column written for a value. */
  function Encode(v: Value): Row {
    match v
    case StringValue(s) => StringRow(s)
    case IntegerValue(i) => IntegerRow(i)
    case PositiveIntegerValue(n) => PositiveIntegerRow(n)
    case TimeDeltaValue(d) => TimeDeltaRow(TimedeltaField.Serialize(d))
  }

  /**
   * The value read back from a column; a duration's text goes through the
   * field's `to_python`. Loading a row runs no validator.
   */
  function Decode(r: Row): Result<Value, Error> {
    match r
    case StringRow(s) => Success(StringValue(s))
    case IntegerRow(i) => Success(IntegerValue(i))
    case PositiveIntegerRow(n) => Success(PositiveIntegerValue(n))
    case TimeDeltaRow(text) =>
      match TimedeltaField.ToPython(TimedeltaField.Text(text))
      case Failure(e) => Failure(ValidationError(e))
      case Success(w) =>
        Success(TimeDeltaValue(w.duration))
  }

  /**
   * The value that reading back the column written for `v` gives: a
   * duration loses its absolute attributes that are set to 0.
   */
  function ReadBack(v: Value): Value {
    if v.TimeDeltaValue? then TimeDeltaValue(TimedeltaField.Canonical(v.d)) else v
  }

  /**
   * Every value reads back from its column as `ReadBack` says, which is the
   * value itself except for a duration with an absolute attribute set to 0.
   */
  lemma DecodeEncode(v: Value)
    ensures Decode(Encode(v)) == Success(ReadBack(v))
    ensures ReadBack(v) == v <==> (v.TimeDeltaValue? ==> TimedeltaField.NoAbsoluteZero(v.d))
    ensures TypeOf(ReadBack(v)) == TypeOf(v) && (Admissible(TypeOf(v), v) ==> Admissible(TypeOf(v), ReadBack(v)))
  {
    if v.TimeDeltaValue? {
      TimedeltaField.ParseSerialize(v.d);
      TimedeltaField.CanonicalFixed(v.d);
      DecodeDuration(TimedeltaField.Canonical(v.d), TimedeltaField.Serialize(v.d));
    }
  }

  lemma DecodeDuration(d: TimedeltaField.Duration, text: string)
    requires TimedeltaField.ParseArguments(text) == Success(d)
    ensures Decode(TimeDeltaRow(text)) == Success(TimeDeltaValue(d))
  {
  }

  /** A `Setting` row: its name, the type of its value object, and that object's id. */
  datatype Entry = Entry(name: string, settingType: SettingType, settingId: nat)

  /** The database: setting rows in primary-key order, value-object rows by id, the next free id. */
  datatype Db = Db(entries: seq<Entry>, rows: map<nat, Row>, nextId: nat)

  /** A `setting_modified` notification. */
  datatype Event = Event(name: string, value: Value)

  const EmptyDb: Db := Db([], map[], 0)

  // ---------------------------------------------------------------------
  // Queries by name
  // ---------------------------------------------------------------------

  /** `filter(name=name)[0]`: the first row with that name. */
  function FirstNamed(entries: seq<Entry>, name: string): (r: Option<nat>)
    ensures r.Some? ==> r.value < |entries| && entries[r.value].name == name
    ensures r.Some? ==> forall j :: 0 <= j < r.value ==> entries[j].name != name
    ensures r.None? ==> forall j :: 0 <= j < |entries| ==> entries[j].name != name
  {
    if entries == [] then None
    else if entries[0].name == name then Some(0)
    else
      match FirstNamed(entries[1..], name)
      case None => None
      case Some(k) => Some(k + 1)
  }

  /** How many rows have that name. */
  function CountNamed(entries: seq<Entry>, name: string): nat {
    if entries == [] then 0
    else (if entries[0].name == name then 1 else 0) + CountNamed(entries[1..], name)
  }

  /** `get(name=name)`: the one row with that name; none, or more than one, is an error. */
  function GetNamed(entries: seq<Entry>, name: string): (r: Result<nat, Error>)
    ensures r.Success? <==> CountNamed(entries, name) == 1
    ensures r.Success? ==> r.value < |entries| && entries[r.value].name == name
    ensures r.Success? ==> FirstNamed(entries, name) == Some(r.value)
    ensures CountNamed(entries, name) == 0 ==> r == Failure(DoesNotExist(name))
    ensures CountNamed(entries, name) > 1 ==> r == Failure(MultipleObjectsReturned(name))
  {
    CountNamedZero(entries, name);
    match FirstNamed(entries, name)
    case None => Failure(DoesNotExist(name))
    case Some(i) =>
      if CountNamed(entries, name) > 1 then Failure(MultipleObjectsReturned(name)) else Success(i)
  }

  /** `value_object_exists`: the first row with that name still has its value object. */
  function ValueObjectExists(db: Db, name: string): bool {
    match FirstNamed(db.entries, name)
    case None => false
    case Some(i) => db.entries[i].settingId in db.rows
  }

  /** `get_value(name)`, or `get_value(name, default=d)` when `default` is `Some(d)`. */
  function GetValue(db: Db, name: string, default: Option<Value>): Result<Value, Error> {
    if default.Some? && !ValueObjectExists(db, name) then Success(default.value)
    else
      var i :- GetNamed(db.entries, name);
      var id := db.entries[i].settingId;
      if id in db.rows then Decode(db.rows[id]) else Failure(NoValueObject(name))
  }

  // ---------------------------------------------------------------------
  // Writing
  // ---------------------------------------------------------------------

  /** The state after a write and what the write returned. */
  datatype Written = Written(db: Db, result: Result<Entry, Error>)

  /**
   * `set_value(name, SettingClass, value)`: when the first row with that
   * name has a value object, that row is fetched with `get` and its value
   * object deleted; then a value object is created and linked to the fetched
   * row, or to a new row when none was fetched.
   */
  function SetValue(db: Db, name: string, t: SettingType, v: Value): Written {
    if ValueObjectExists(db, name) then
      match GetNamed(db.entries, name)
      case Failure(e) => Written(db, Failure(e))
      case Success(i) =>
        var cleared := db.(rows := db.rows - {db.entries[i].settingId});
        Create(cleared, Some(i), name, t, v)
    else Create(db, None, name, t, v)
  }

  /** `SettingClass.objects.create(value=value)`, then linking and saving the setting row. */
  function Create(db: Db, slot: Option<nat>, name: string, t: SettingType, v: Value): Written
    requires slot.Some? ==> slot.value < |db.entries|
  {
    if !Admissible(t, v) then Written(db, Failure(InvalidValue(t, v)))
    else
      var e := Entry(name, t, db.nextId);
      var entries := if slot.Some? then db.entries[slot.value := e] else db.entries + [e];
      Written(Db(entries, db.rows[db.nextId := Encode(v)], db.nextId + 1), Success(e))
  }

  /** The notifications a write sends: one `(name, value)` when it succeeded, none otherwise. */
  function Emitted(name: string, v: Value, w: Written): seq<Event> {
    if w.result.Success? then [Event(name, v)] else []
  }

  // ---------------------------------------------------------------------
  // The store invariant
  // ---------------------------------------------------------------------

  /**
   * Ids are below `nextId`; no two rows share a value object; every value
   * object belongs to a row (no orphans); and a row's value object reads
   * back as an admissible value of the row's type.
   */
  ghost predicate Valid(db: Db) {
    Bounded(db) && DistinctLinks(db.entries) && NoOrphans(db) && RowsHold(db)
  }

  ghost predicate Bounded(db: Db) {
    && (forall id :: id in db.rows ==> id < db.nextId)
    && (forall i :: 0 <= i < |db.entries| ==> db.entries[i].settingId < db.nextId)
  }

  predicate DistinctLinks(entries: seq<Entry>) {
    forall i, j :: 0 <= i < j < |entries| ==> entries[i].settingId != entries[j].settingId
  }

  ghost predicate NoOrphans(db: Db) {
    forall id :: id in db.rows ==> exists i :: 0 <= i < |db.entries| && db.entries[i].settingId == id
  }

  ghost predicate RowsHold(db: Db) {
    forall i :: 0 <= i < |db.entries| && db.entries[i].settingId in db.rows ==>
      Holds(db.entries[i].settingType, db.rows[db.entries[i].settingId])
  }

  /** The row reads back as an admissible value of type `t`. */
  predicate Holds(t: SettingType, r: Row) {
    Decode(r).Success? && Admissible(t, Decode(r).value)
  }

  /** At most one row has the name, and a row that has it still has its value object. */
  ghost predicate Healthy(db: Db, name: string) {
    CountNamed(db.entries, name) <= 1
    && forall i :: 0 <= i < |db.entries| && db.entries[i].name == name ==> db.entries[i].settingId in db.rows
  }

  lemma EmptyDbValid()
    ensures Valid(EmptyDb) && forall name :: Healthy(EmptyDb, name)
  {
  }

  /** How many rows point at value object `id`. */
  function Owners(entries: seq<Entry>, id: nat): nat {
    if entries == [] then 0
    else (if entries[0].settingId == id then 1 else 0) + Owners(entries[1..], id)
  }

  lemma {:induction false} OwnersOfDistinct(entries: seq<Entry>, id: nat, k: nat)
    requires forall i, j :: 0 <= i < j < |entries| ==> entries[i].settingId != entries[j].settingId
    requires k < |entries| && entries[k].settingId == id
    ensures Owners(entries, id) == 1
  {
    if k == 0 {
      OwnersAbsent(entries[1..], id);
    } else {
      assert entries[0].settingId != entries[k].settingId;
      OwnersOfDistinct(entries[1..], id, k - 1);
    }
  }

  lemma {:induction false} OwnersAbsent(entries: seq<Entry>, id: nat)
    requires forall i :: 0 <= i < |entries| ==> entries[i].settingId != id
    ensures Owners(entries, id) == 0
  {
    if entries != [] {
      OwnersAbsent(entries[1..], id);
    }
  }

  /** In a valid store each value object is owned by exactly one setting row. */
  lemma OwnedExactlyOnce(db: Db)
    requires Valid(db)
    ensures forall id :: id in db.rows ==> Owners(db.entries, id) == 1
  {
    forall id | id in db.rows ensures Owners(db.entries, id) == 1 {
      var k :| 0 <= k < |db.entries| && db.entries[k].settingId == id;
      OwnersOfDistinct(db.entries, id, k);
    }
  }

  // ---------------------------------------------------------------------
  // Facts about the name queries
  // ---------------------------------------------------------------------

  lemma {:induction false} CountNamedAppend(entries: seq<Entry>, e: Entry, name: string)
    ensures CountNamed(entries + [e], name) == CountNamed(entries, name) + (if e.name == name then 1 else 0)
  {
    if entries != [] {
      assert (entries + [e])[1..] == entries[1..] + [e];
      CountNamedAppend(entries[1..], e, name);
    }
  }

  lemma {:induction false} CountNamedZero(entries: seq<Entry>, name: string)
    ensures CountNamed(entries, name) == 0 <==> FirstNamed(entries, name).None?
  {
    if entries != [] {
      CountNamedZero(entries[1..], name);
    }
  }

  lemma {:induction false} CountNamedTwo(entries: seq<Entry>, name: string, i: nat, j: nat)
    requires i < j < |entries| && entries[i].name == name && entries[j].name == name
    ensures CountNamed(entries, name) >= 2
  {
    if i == 0 {
      CountNamedZero(entries[1..], name);
      assert entries[1..][j - 1].name == name;
    } else {
      CountNamedTwo(entries[1..], name, i - 1, j - 1);
    }
  }

  /** When one row has the name, it is the first row with it and no other row has it. */
  lemma OnlyNamed(entries: seq<Entry>, name: string, k: nat)
    requires CountNamed(entries, name) == 1 && k < |entries| && entries[k].name == name
    ensures FirstNamed(entries, name) == Some(k)
    ensures forall j :: 0 <= j < |entries| && j != k ==> entries[j].name != name
  {
    forall j | 0 <= j < |entries| && j != k ensures entries[j].name != name {
      if entries[j].name == name {
        if j < k { CountNamedTwo(entries, name, j, k); } else { CountNamedTwo(entries, name, k, j); }
      }
    }
  }

  /** Rows with the same names answer every name query the same way. */
  lemma {:induction false} SameNames(a: seq<Entry>, b: seq<Entry>, name: string)
    requires |a| == |b| && forall j :: 0 <= j < |a| ==> a[j].name == b[j].name
    ensures FirstNamed(a, name) == FirstNamed(b, name)
    ensures CountNamed(a, name) == CountNamed(b, name)
  {
    if a != [] {
      SameNames(a[1..], b[1..], name);
    }
  }

  lemma FirstNamedAppend(entries: seq<Entry>, e: Entry, name: string)
    ensures FirstNamed(entries + [e], name) ==
      if FirstNamed(entries, name).Some? then FirstNamed(entries, name)
      else if e.name == name then Some(|entries|) else None
  {
    var r := FirstNamed(entries + [e], name);
    var s := entries + [e];
    assert forall j :: 0 <= j < |entries| ==> s[j] == entries[j];
    assert s[|entries|] == e;
    match FirstNamed(entries, name)
    case Some(k) =>
    case None =>
  }

  // ---------------------------------------------------------------------
  // get_value
  // ---------------------------------------------------------------------

  /**
   * `get_value(name, default=d)` is `d` whenever the first row with the
   * name has no value object; with no default, a missing name fails with
   * DoesNotExist.
   */
  lemma GetValueDefault(db: Db, name: string, d: Value)
    ensures !ValueObjectExists(db, name) ==> GetValue(db, name, Some(d)) == Success(d)
    ensures CountNamed(db.entries, name) == 0 ==>
      GetValue(db, name, Some(d)) == Success(d) && GetValue(db, name, None) == Failure(DoesNotExist(name))
  {
    CountNamedZero(db.entries, name);
  }

  /**
   * When exactly one row has the name and its value object exists, every
   * form of `get_value` returns the stored value, whatever the default.
   */
  lemma GetValueStored(db: Db, name: string, default: Option<Value>)
    requires Valid(db) && CountNamed(db.entries, name) == 1 && ValueObjectExists(db, name)
    ensures var i := FirstNamed(db.entries, name).value;
      var r := db.rows[db.entries[i].settingId];
      Decode(r).Success? && Admissible(db.entries[i].settingType, Decode(r).value)
      && GetValue(db, name, default) == Decode(r)
  {
  }

  // ---------------------------------------------------------------------
  // set_value
  // ---------------------------------------------------------------------

  lemma RemoveRowValid(db: Db, id: nat)
    requires Valid(db)
    ensures Valid(db.(rows := db.rows - {id}))
  {
  }

  lemma CreateValid(db: Db, slot: Option<nat>, name: string, t: SettingType, v: Value)
    requires Valid(db)
    requires slot.Some? ==> slot.value < |db.entries| && db.entries[slot.value].settingId !in db.rows
    ensures Valid(Create(db, slot, name, t, v).db)
  {
    if Admissible(t, v) {
      DecodeEncode(v);
      var e := Entry(name, t, db.nextId);
      if slot.Some? {
        LinkValid(db, db.entries[slot.value := e], slot.value, e, Encode(v));
      } else {
        LinkValid(db, db.entries + [e], |db.entries|, e, Encode(v));
      }
    }
  }

  /**
   * Putting a new row `e` with a new value object `r` at position `k`,
   * either over a row whose value object is gone or after the last row,
   * keeps the store valid.
   */
  lemma LinkValid(db: Db, es: seq<Entry>, k: nat, e: Entry, r: Row)
    requires Valid(db)
    requires LinkedAt(db, es, k, e) && Holds(e.settingType, r)
    ensures Valid(Db(es, db.rows[db.nextId := r], db.nextId + 1))
  {
    LinkDistinct(db, es, k, e);
    LinkNoOrphans(db, es, k, e, r);
    LinkRowsHold(db, es, k, e, r);
  }

  /** `es` is the rows of `db` with `e`, which links the next id, put at position `k`. */
  ghost predicate LinkedAt(db: Db, es: seq<Entry>, k: nat, e: Entry) {
    && k < |es| && es[k] == e && e.settingId == db.nextId
    && |db.entries| <= |es| <= |db.entries| + 1
    && (|es| > |db.entries| ==> k == |db.entries|)
    && (k < |db.entries| ==> db.entries[k].settingId !in db.rows)
    && (forall i :: 0 <= i < |es| && i != k ==> es[i] == db.entries[i])
  }

  lemma LinkDistinct(db: Db, es: seq<Entry>, k: nat, e: Entry)
    requires Bounded(db) && DistinctLinks(db.entries) && LinkedAt(db, es, k, e)
    ensures DistinctLinks(es)
  {
    forall i, j | 0 <= i < j < |es| ensures es[i].settingId != es[j].settingId {
      if i != k && j != k {
        assert es[i] == db.entries[i] && es[j] == db.entries[j];
      }
    }
  }

  lemma LinkNoOrphans(db: Db, es: seq<Entry>, k: nat, e: Entry, r: Row)
    requires NoOrphans(db) && LinkedAt(db, es, k, e)
    ensures NoOrphans(Db(es, db.rows[db.nextId := r], db.nextId + 1))
  {
    var rows := db.rows[db.nextId := r];
    forall id | id in rows ensures exists i :: 0 <= i < |es| && es[i].settingId == id {
      if id == db.nextId {
        assert es[k].settingId == id;
      } else {
        var i :| 0 <= i < |db.entries| && db.entries[i].settingId == id;
        assert i != k;
        assert es[i].settingId == id;
      }
    }
  }

  lemma LinkRowsHold(db: Db, es: seq<Entry>, k: nat, e: Entry, r: Row)
    requires Bounded(db) && RowsHold(db) && LinkedAt(db, es, k, e) && Holds(e.settingType, r)
    ensures RowsHold(Db(es, db.rows[db.nextId := r], db.nextId + 1))
  {
    var rows := db.rows[db.nextId := r];
    forall i | 0 <= i < |es| && es[i].settingId in rows
      ensures Holds(es[i].settingType, rows[es[i].settingId])
    {
      if i != k {
        assert es[i] == db.entries[i];
        assert es[i].settingId < db.nextId;
      }
    }
  }

  /** Every write keeps the store valid, whether it succeeds or fails. */
  lemma SetValuePreservesValid(db: Db, name: string, t: SettingType, v: Value)
    requires Valid(db)
    ensures Valid(SetValue(db, name, t, v).db)
  {
    if ValueObjectExists(db, name) {
      match GetNamed(db.entries, name)
      case Failure(_) =>
      case Success(i) =>
        var cleared := db.(rows := db.rows - {db.entries[i].settingId});
        RemoveRowValid(db, db.entries[i].settingId);
        CreateValid(cleared, Some(i), name, t, v);
    } else {
      CreateValid(db, None, name, t, v);
    }
  }

  /**
   * Replace on write: when the name's one row has a value object, a
   * successful write reuses that row, deletes its old value object and
   * links a new one; no other row changes.
   */
  lemma SetValueReplaces(db: Db, name: string, t: SettingType, v: Value)
    requires Valid(db) && CountNamed(db.entries, name) == 1 && ValueObjectExists(db, name)
    requires Admissible(t, v)
    ensures var i := FirstNamed(db.entries, name).value;
      var old_id := db.entries[i].settingId;
      var w := SetValue(db, name, t, v);
      && w.result == Success(Entry(name, t, db.nextId))
      && |w.db.entries| == |db.entries|
      && w.db.entries[i] == Entry(name, t, db.nextId)
      && (forall j :: 0 <= j < |db.entries| && j != i ==> w.db.entries[j] == db.entries[j])
      && old_id !in w.db.rows
      && w.db.rows == (db.rows - {old_id})[db.nextId := Encode(v)]
  {
  }

  /** A write creates a new row only when the name's first row has no value object. */
  lemma SetValueAppends(db: Db, name: string, t: SettingType, v: Value)
    requires !ValueObjectExists(db, name) && Admissible(t, v)
    ensures var w := SetValue(db, name, t, v);
      && w.result == Success(Entry(name, t, db.nextId))
      && w.db.entries == db.entries + [Entry(name, t, db.nextId)]
      && w.db.rows == db.rows[db.nextId := Encode(v)]
  {
  }

  /**
   * After a successful write to a healthy name, `get_value(name)` returns
   * the written value as it reads back, exactly one row has the name and it has its value
   * object, and exactly one `(name, value)` notification was sent. On a
   * healthy name a write succeeds exactly when the value is admissible.
   */
  lemma GetAfterSet(db: Db, name: string, t: SettingType, v: Value, default: Option<Value>)
    requires Valid(db) && Healthy(db, name)
    ensures SetValue(db, name, t, v).result.Success? <==> Admissible(t, v)
    ensures Admissible(t, v) ==>
      var w := SetValue(db, name, t, v);
      && GetValue(w.db, name, default) == Success(ReadBack(v))
      && CountNamed(w.db.entries, name) == 1 && ValueObjectExists(w.db, name)
      && Healthy(w.db, name)
      && Emitted(name, v, w) == [Event(name, v)]
  {
    CountNamedZero(db.entries, name);
    if Admissible(t, v) {
      var w := SetValue(db, name, t, v);
      DecodeEncode(v);
      if CountNamed(db.entries, name) == 0 {
        var e := Entry(name, t, db.nextId);
        CountNamedAppend(db.entries, e, name);
        assert w.db.entries == db.entries + [e];
        SoleLive(w.db, name, |db.entries|, default);
      } else {
        var i := FirstNamed(db.entries, name).value;
        SetValueReplaces(db, name, t, v);
        SameNames(db.entries, w.db.entries, name);
        SoleLive(w.db, name, i, default);
      }
    }
  }

  /** When the name's only row still has its value object, every `get_value` form reads that object. */
  lemma SoleLive(db: Db, name: string, k: nat, default: Option<Value>)
    requires CountNamed(db.entries, name) == 1 && k < |db.entries| && db.entries[k].name == name
    requires db.entries[k].settingId in db.rows
    ensures ValueObjectExists(db, name) && Healthy(db, name)
    ensures GetValue(db, name, default) == Decode(db.rows[db.entries[k].settingId])
  {
    OnlyNamed(db.entries, name, k);
  }

  /** Two stores that agree on the rows named `other` and on their value objects answer the same for `other`. */
  lemma SameView(a: Db, b: Db, other: string, default: Option<Value>)
    requires FirstNamed(a.entries, other) == FirstNamed(b.entries, other)
    requires CountNamed(a.entries, other) == CountNamed(b.entries, other)
    requires FirstNamed(a.entries, other).Some? ==>
      var id := a.entries[FirstNamed(a.entries, other).value].settingId;
      && b.entries[FirstNamed(a.entries, other).value].settingId == id
      && (id in a.rows <==> id in b.rows)
      && (id in a.rows ==> a.rows[id] == b.rows[id])
    ensures ValueObjectExists(a, other) == ValueObjectExists(b, other)
    ensures GetValue(a, other, default) == GetValue(b, other, default)
  {
  }

  lemma ReplaceOthers(db: Db, name: string, t: SettingType, v: Value, other: string, default: Option<Value>)
    requires Bounded(db) && DistinctLinks(db.entries) && other != name
    requires ValueObjectExists(db, name) && GetNamed(db.entries, name).Success?
    ensures var w := SetValue(db, name, t, v).db;
      && ValueObjectExists(w, other) == ValueObjectExists(db, other)
      && GetValue(w, other, default) == GetValue(db, other, default)
  {
    var w := SetValue(db, name, t, v).db;
    var i := GetNamed(db.entries, name).value;
    var old_id := db.entries[i].settingId;
    SameNames(db.entries, w.entries, other);
    match FirstNamed(db.entries, other)
    case None =>
      SameView(db, w, other, default);
    case Some(k) =>
      assert k != i;
      assert db.entries[k].settingId != old_id;
      assert w.entries[k] == db.entries[k];
      assert db.entries[k].settingId < db.nextId;
      SameView(db, w, other, default);
  }

  lemma AppendOthers(db: Db, name: string, t: SettingType, v: Value, other: string, default: Option<Value>)
    requires Bounded(db) && DistinctLinks(db.entries) && other != name
    requires !ValueObjectExists(db, name)
    ensures var w := SetValue(db, name, t, v).db;
      && ValueObjectExists(w, other) == ValueObjectExists(db, other)
      && GetValue(w, other, default) == GetValue(db, other, default)
  {
    var w := SetValue(db, name, t, v).db;
    if Admissible(t, v) {
      var e := Entry(name, t, db.nextId);
      assert w.entries == db.entries + [e];
      CountNamedAppend(db.entries, e, other);
      FirstNamedAppend(db.entries, e, other);
      match FirstNamed(db.entries, other)
      case None =>
        SameView(db, w, other, default);
      case Some(k) =>
        assert w.entries[k] == db.entries[k];
        assert db.entries[k].settingId < db.nextId;
        SameView(db, w, other, default);
    }
  }

  /** A write to one name changes nothing that `get_value` or `value_object_exists` says about another. */
  lemma SetValueOthersUnchanged(db: Db, name: string, t: SettingType, v: Value, other: string, default: Option<Value>)
    requires Valid(db) && other != name
    ensures var w := SetValue(db, name, t, v).db;
      && ValueObjectExists(w, other) == ValueObjectExists(db, other)
      && GetValue(w, other, default) == GetValue(db, other, default)
  {
    if !ValueObjectExists(db, name) {
      AppendOthers(db, name, t, v, other, default);
    } else if GetNamed(db.entries, name).Success? {
      ReplaceOthers(db, name, t, v, other, default);
    }
  }

  /**
   * As written, the old value object is deleted before the new value is
   * checked: a write of an inadmissible value to a healthy, stored name
   * fails, sends nothing, and leaves the name's row without a value object,
   * so `get_value(name, default=d)` then returns `d` and `get_value(name)`
   * fails.
   */
  lemma FailedWriteLosesValue(db: Db, name: string, t: SettingType, v: Value, d: Value)
    requires Valid(db) && Healthy(db, name) && ValueObjectExists(db, name) && !Admissible(t, v)
    ensures var w := SetValue(db, name, t, v);
      && w.result == Failure(InvalidValue(t, v))
      && Emitted(name, v, w) == []
      && w.db.entries == db.entries
      && !ValueObjectExists(w.db, name)
      && GetValue(w.db, name, Some(d)) == Success(d)
      && GetValue(w.db, name, None) == Failure(NoValueObject(name))
  {
    CountNamedZero(db.entries, name);
  }

  /**
   * After such a failed write the next successful write adds a second row
   * with the same name: from then on `get_value(name)` fails with
   * MultipleObjectsReturned and `get_value(name, default=d)` returns `d`.
   */
  lemma WriteAfterLossDuplicates(db: Db, name: string, t: SettingType, v: Value, d: Value)
    requires Valid(db) && CountNamed(db.entries, name) == 1 && !ValueObjectExists(db, name)
    requires Admissible(t, v)
    ensures var w := SetValue(db, name, t, v);
      && w.result.Success?
      && CountNamed(w.db.entries, name) == 2
      && GetValue(w.db, name, None) == Failure(MultipleObjectsReturned(name))
      && GetValue(w.db, name, Some(d)) == Success(d)
  {
    var e := Entry(name, t, db.nextId);
    CountNamedAppend(db.entries, e, name);
    FirstNamedAppend(db.entries, e, name);
    CountNamedZero(db.entries, name);
    var k := FirstNamed(db.entries, name).value;
    assert SetValue(db, name, t, v).db.entries[k] == db.entries[k];
  }

  /**
   * `set_value` with the value checked before anything is deleted: a
   * rejected value changes nothing; an accepted one is written as before.
   */
  function CheckedSetValue(db: Db, name: string, t: SettingType, v: Value): Written {
    if !Admissible(t, v) then Written(db, Failure(InvalidValue(t, v))) else SetValue(db, name, t, v)
  }

  /**
   * With the check first, a rejected write leaves the store as it was and
   * sends nothing, so the name keeps its value; an accepted write reads back
   * as written. Either way the store stays valid and a healthy name stays
   * healthy, so no second row with the name can appear.
   */
  lemma CheckedWriteKeepsValue(db: Db, name: string, t: SettingType, v: Value, default: Option<Value>)
    requires Valid(db) && Healthy(db, name)
    ensures var w := CheckedSetValue(db, name, t, v);
      && Valid(w.db) && Healthy(w.db, name)
      && (w.result.Success? <==> Admissible(t, v))
      && (!Admissible(t, v) ==>
            w.db == db && w.result == Failure(InvalidValue(t, v)) && Emitted(name, v, w) == []
            && GetValue(w.db, name, default) == GetValue(db, name, default))
      && (Admissible(t, v) ==>
            GetValue(w.db, name, default) == Success(ReadBack(v)) && Emitted(name, v, w) == [Event(name, v)])
  {
    GetAfterSet(db, name, t, v, default);
    SetValuePreservesValid(db, name, t, v);
  }
}
