# django-settings: a Dafny model of the typed settings store

django-settings keeps named configuration values in the database. Each
`Setting` row has a name and a generic link (`setting_type`, `setting_id`)
to a value object of one of four kinds: `String`, `Integer`,
`PositiveInteger` or `TimeDelta`. A time delta is a
`dateutil.relativedelta` that `TimedeltaField` stores as text such as
`months=3,days=2`.

`Setting.objects` (a `SettingManager`) provides three operations:

- `get_value(name[, default])` reads a value;
- `value_object_exists(name)` tells whether a name still has its value object;
- `set_value(name, SettingClass, value)` replaces the value and sends the `setting_modified` signal.

`auto_refreshable_setting(name)` returns a getter that was meant to follow
those signals.

The project has six modules:

- `Wrappers`: `Option` and `Result`.
- `Numerals`: `'%d'` formatting, and reading an integer literal back.
- `TimedeltaField`: the relative duration (its sixteen public attributes and the private `_has_time` flag). The eight relative attributes (`years` ... `microseconds`) are integers. The eight absolute ones (`year` ... `microsecond`, `weekday`) are optional integers, because `relativedelta` leaves them `None` when they are not given.
  - The writer is `get_prep_value`: private names and zero values are filtered out, each remaining attribute is formatted `name=value`, and the results are joined with `,`.
  - The reader is `to_python`: the text is read as keyword arguments over the sixteen attribute names plus `weeks` (the whitelist `Whitelist`), and any failure becomes a `ValidationError`. The constructor's other keywords are listed under "Left out".
  - Also here: the validator, and the round trip and rejection properties.
- `SettingStore`: the database as a value.
  - Setting rows are kept in primary-key order. Value-object rows are keyed by id and hold their column form, so a duration is stored as its text. Ids come from one counter.
  - `get`, `filter(...)[0]`, `get_value`, `value_object_exists`, `set_value` and `create` are functions of that value.
  - There is a store invariant (ids bounded, no shared value object, no orphan value object, every stored column reads back as an admissible value of its row's type), with the lemmas about it.
- `Models`: the same operations on mutable objects.
  - `SettingManager` holds the tables and a record of the signals sent.
  - `Setting` holds a loaded row and its value object.
  - Each `SettingManager` method is proved against the `SettingStore` function it implements.
- `AutoRefresh`: the cached reader as written, and a corrected reader.

`set_value` first deletes the old value object, then runs `create(value=...)`. `create` runs no validator. It converts the value for its column as it saves, and that conversion can raise (`int('abc')` for an `Integer`). The model follows this order and does not check before deleting. Its `Admissible` check at `create` stands in for the conversion (see `SettingStore.Create` under "Left out").

Because of that order, a value that `create` rejects leaves the setting row without a value object (`FailedWriteLosesValue`). The next write then adds a second row with the same name (`WriteAfterLossDuplicates`). `CheckedSetValue` is the write with the check first.

The writer drops every attribute whose value is false, so an absolute attribute explicitly set to 0 (`hour=0`) is not written and reads back as unset. The store, the manager and the readers use the writer as written: a duration reads back as `Canonical(d)`, `d` with those zeros unset (`ReadBack`). `CorrectedSerialize` is a writer that keeps them.

## Model

Rows name the members whose contracts state a property. The conversion and store functions themselves are stated through these lemmas and methods:

- `ToPython`, `GetPrepValue`, `Serialize` and `ParseArguments`: through `RoundTrip`, `ParseSerialize`, `SerializedItems`, `ToPythonIdempotent`, `GetPrepValuePassThrough` and the rejection lemmas.
- `Validate`: through `ParsedPassesValidation`.
- `IntToString` and `ParseInt`: through `ParseIntIff` and `IntToStringHasNoSeparator`.
- `Encode` and `Decode`: through `DecodeEncode`.
- `GetValue`, `ValueObjectExists`, `SetValue` and `Create`: through the `SettingStore` lemmas and the `Models.SettingManager` methods that implement them.

| member | source | states |
|---|---|---|
| `Numerals.ParseIntIff` | django_settings/models.py:58 | an integer literal is read as `n` exactly when it is the `'%d'` text of `n`, or `n` is 0 and the text is `-0` |
| `Numerals.IntToStringHasNoSeparator` | django_settings/models.py:67 | the `'%d'` text of a number contains no `,` and no `=`, so it cannot break the `name=value` list |
| `TimedeltaField.AllFieldsDistinct` | django_settings/models.py:67 | the attributes written by `get_prep_value` are sixteen distinct fields |
| `TimedeltaField.Extensionality` | django_settings/models.py:58 | a duration is determined by its attribute values |
| `TimedeltaField.CanonicalFixed` | django_settings/models.py:67 | unsetting the absolute zeros changes a duration exactly when one of its absolute attributes is set to 0 |
| `TimedeltaField.WhitelistIsLookup` | django_settings/models.py:58 | a key is in the keyword whitelist exactly when the keyword lookup knows it |
| `TimedeltaField.SerializeEmptyIffZero` | django_settings/models.py:65-68 | a duration is written as the empty text exactly when every attribute is 0 or unset, that is, exactly when it reads back as the zero duration |
| `TimedeltaField.SerializedItems` | django_settings/models.py:67 | the written text lists `name=value` for exactly the public attributes that are set and not 0, in declaration order, and nothing else (the private `_has_time` flag never appears) |
| `TimedeltaField.ParseSerialize` | django_settings/models.py:54-68 | reading back the text written for any duration gives that duration with its absolute zeros unset |
| `TimedeltaField.RoundTrip` | django_settings/models.py:54-68 | `to_python(get_prep_value(d))` is `d` with its absolute zeros unset, which is `d` exactly when no absolute attribute is set to 0 |
| `TimedeltaField.CorrectedParseSerialize` | django_settings/models.py:54-68 | reading back the corrected writer's text gives every duration exactly |
| `TimedeltaField.CorrectedRoundTrip` | django_settings/models.py:54-68 | `to_python` of the corrected writer's text is `d` for every duration `d`, and the text is empty exactly for the zero duration |
| `TimedeltaField.MidnightLost` | django_settings/models.py:65-68 | `hour=0,minute=0` is written as the empty text, so it reads back as the zero duration, which differs from it; the corrected writer's text reads back as it |
| `TimedeltaField.ToPythonIdempotent` | django_settings/models.py:54-60 | a successful `to_python` returns nothing or a duration, which `to_python` leaves unchanged; a non-text value is returned as it is |
| `TimedeltaField.GetPrepValuePassThrough` | django_settings/models.py:65-68 | `get_prep_value` returns a non-duration unchanged and always returns nothing or text |
| `TimedeltaField.SerializeParseIdempotent` | django_settings/models.py:54-68 | the text written for a duration read from text reads back as a duration that is written as the same text; that duration is the one read with its absolute zeros unset, so it is the same duration exactly when no absolute attribute was set to 0 (`hour=0` reads as `hour` set to 0, is written as "", and reads back as the zero duration) |
| `TimedeltaField.ParsedPassesValidation` | django_settings/models.py:43-45 | every value `to_python` accepts from text passes the field's validator |
| `TimedeltaField.FailureIsValidationError` | django_settings/models.py:57-60 | `to_python` fails exactly when it is given text that does not parse, and then always with the field's `ValidationError` message |
| `TimedeltaField.UnknownKeywordRejected` | django_settings/models.py:58-60 | text with any piece whose key is not a relative-duration keyword is rejected with `ValidationError` |
| `TimedeltaField.NonIntegerRejected` | django_settings/models.py:58-60 | text with any piece whose value is not an integer literal is rejected with `ValidationError` |
| `TimedeltaField.MissingEqualsRejected` | django_settings/models.py:58-60 | text with any piece that has no `=` is rejected with `ValidationError` |
| `TimedeltaField.RepeatedKeywordRejected` | django_settings/models.py:58-60 | text that names the same keyword in two pieces is rejected with `ValidationError`, as a repeated keyword argument is |
| `TimedeltaField.DocumentedExample` | django_settings/models.py:84-86 | `months=3,days=2` reads as three months and two days, and that duration is written back as the same text |
| `TimedeltaField.UnknownKeywordExample` | django_settings/models.py:58-60 | `foo=1` is rejected with `ValidationError` |
| `SettingStore.DecodeEncode` | django_settings/models.py:24-33 | every value of every kind reads back from the column written for it as `ReadBack` of itself, with its kind and admissibility; that is the value itself, except for a duration with an absolute attribute set to 0 |
| `SettingStore.FirstNamed` | django_settings/models.py:106-107 | the result is the index of the first row with the name, or none when no row has it |
| `SettingStore.GetNamed` | django_settings/models.py:102 | `get(name=name)` succeeds exactly when one row has the name, and returns that row's index; it fails with `DoesNotExist` when no row has it and with `MultipleObjectsReturned` when several do |
| `SettingStore.EmptyDbValid` | django_settings/models.py:122-133 | the empty database satisfies the store invariant, and every name is healthy in it |
| `SettingStore.OwnedExactlyOnce` | django_settings/models.py:129-131 | in a valid store every stored value object is linked from exactly one setting row |
| `SettingStore.GetValueDefault` | django_settings/models.py:98-101 | with a default, a name whose first row has no value object reads as the default; an unknown name reads as the default, and fails with `DoesNotExist` when there is no default |
| `SettingStore.GetValueStored` | django_settings/models.py:98-103 | when one row has the name and its value object exists, it holds an admissible value of the row's type, and `get_value` returns that value whatever the default |
| `SettingStore.SetValuePreservesValid` | django_settings/models.py:109-120 | every write, successful or not, keeps the store invariant |
| `SettingStore.SetValueReplaces` | django_settings/models.py:112-118 | when the name's single row has a value object, a successful write keeps that row, deletes the old value object, links one new object with a fresh id, and changes no other row |
| `SettingStore.SetValueAppends` | django_settings/models.py:109-118 | when the name's first row has no value object, a successful write adds a new row with a new value object at the end and leaves every other row in place |
| `SettingStore.GetAfterSet` | django_settings/models.py:109-120 | on a healthy name, a write succeeds exactly when the value is admissible; after it, every `get_value` form returns the value written as it reads back, one row has the name, and one `(name, value)` notification was sent |
| `SettingStore.SetValueOthersUnchanged` | django_settings/models.py:109-120 | a write to one name changes nothing that `get_value` or `value_object_exists` reports for any other name |
| `SettingStore.FailedWriteLosesValue` | django_settings/models.py:112-117 | a rejected value sends no notification, yet the old value object is gone: `get_value(name)` fails with `NoValueObject` and `get_value(name, default=d)` returns `d` |
| `SettingStore.CheckedWriteKeepsValue` | django_settings/models.py:112-117 | with the check first, a rejected value leaves the store unchanged, sends nothing, and the name keeps its value; an accepted one reads back as written with one notification; the invariant and the name's health are kept either way |
| `SettingStore.WriteAfterLossDuplicates` | django_settings/models.py:110-118 | after such a loss, the next successful write adds a second row with the name, so `get_value(name)` fails with `MultipleObjectsReturned` and `get_value(name, default=d)` returns `d` |
| `Models.Setting.GetValue` | django_settings/models.py:140-141 | the `value` property returns the value object's value, and fails with `NoValueObject` when the object is gone |
| `Models.Setting.SetValue` | django_settings/models.py:143-146 | assigning `value` replaces the value object's value in memory and leaves the stored row untouched; with no value object it fails |
| `Models.SettingManager.constructor` | django_settings/models.py:127 | the manager starts on an empty and valid database with no notifications |
| `Models.SettingManager.ValueObjectExists` | django_settings/models.py:105-107 | the method answers what the store's `ValueObjectExists` does |
| `Models.SettingManager.Load` | django_settings/models.py:102 | `get(name=name)` fails with the error `get_value(name)` fails with; otherwise it loads the row `get(name=name)` selects, and the loaded value object is the one `get_value` reads |
| `Models.SettingManager.GetValue` | django_settings/models.py:98-103 | the method returns exactly what the store's `GetValue` does, with every default and failure |
| `Models.SettingManager.SetValue` | django_settings/models.py:109-120 | the new tables are those of the store's `SetValue`; the store invariant is kept; exactly the notifications of a successful write are recorded; the result is that write's setting row, with the new value object loaded |
| `Models.SettingManager.CreateAndLink` | django_settings/models.py:117-119 | `create` followed by save and send: the new state and result are those of the store's `Create`, and one notification is recorded when it succeeds |
| `Models.WriteThenRead` | django_settings/models.py:109-120 | a write followed by a read of a healthy name returns the value written as it reads back, keeps the invariant, keeps the name healthy with one row, and records one notification |
| `Models.ReplaceByOtherType` | django_settings/models.py:109-120 | writing an integer and then a string under one name: each read returns the last value written, one row stays, and two notifications are recorded in order |
| `AutoRefresh.MatchingAppend` | django_settings/models.py:157 | the notifications about a name from a log followed by one more event are those from the log, plus that event when it names the name |
| `AutoRefresh.RefreshedIsLastMatching` | django_settings/models.py:156-159 | the corrected reader holds the value of the last notification about its name, or its initial value when there is none |
| `AutoRefresh.RefreshedAfterWrite` | django_settings/models.py:119-159 | after a successful write, whatever came before, the corrected reader holds the value written, and the store returns it as it reads back |
| `AutoRefresh.CachedSetting.Handle` | django_settings/models.py:156-159 | as written, the handler records a notification about its name but the held value does not change |
| `AutoRefresh.CachedSetting.Deliver` | django_settings/models.py:156-162 | as written, after any sequence of notifications the reader holds its initial value, having seen every notification that names it |
| `AutoRefresh.RefreshingSetting.Handle` | django_settings/models.py:156-159 | corrected: a notification about the name replaces the held value, and any other notification leaves it |
| `AutoRefresh.RefreshingSetting.Deliver` | django_settings/models.py:156-162 | corrected: after a sequence of notifications the reader holds the value that `Refreshed` describes |
| `AutoRefresh.AutoRefreshableSetting` | django_settings/models.py:150-169 | the reader is made holding what `get_value(name)` returns, with no default, and it fails with the same error when that read fails |
| `AutoRefresh.RefreshingReader` | django_settings/models.py:150-169 | the corrected reader is made the same way |
| `AutoRefresh.StaleAfterWrite` | django_settings/models.py:153-166 | as written, after a successful write is sent to the reader, the store returns the new value (as it reads back) but the getter still returns the old one |
| `AutoRefresh.FreshAfterWrite` | django_settings/models.py:153-166 | corrected: after the same write, the getter returns the new value and the store returns it as it reads back |

## Left out

- The ORM is replaced by an in-memory table. This covers querysets, `ContentType` and the generic foreign key (modelled as a type tag and an id), and database ids (modelled as one counter shared by all value kinds). The counter never hands out an id again. That is why the row which `FailedWriteLosesValue` leaves dangling never links to a later value object, and `DistinctLinks` stays true. A database that reused freed ids could link that row to a later value object of the same kind.
- Row order is not modelled. `Setting` declares no `ordering` and `queryset[0]` adds no `ORDER BY`, so the source's "first row with the name" is whichever row the database returns first. The model takes primary-key (insertion) order. `WriteAfterLossDuplicates`'s `get_value(name, default=d)` returning `d` depends on that choice, since the dangling row then comes first.
- Transactions and concurrency are not modelled. Every operation runs to completion alone.
- The model of `eval` covers keyword arguments only. `to_python` builds its duration with `eval('dict(%s)' % value)`. The model accepts only comma-separated `key=integer` pieces with no whitespace. An integer is written in decimal with an optional `-` and no leading zeros; `-0` is accepted as 0. Python also accepts whitespace, a trailing comma, a leading `+`, other literal forms (octal, hexadecimal, long, float) and arbitrary expressions; those are not modelled.
- The `relativedelta` keywords `yearday`, `nlyearday`, `dt1` and `dt2` are rejected by the model. Python accepts them, and they set other attributes (`yearday` and `nlyearday` set `month` and `day`; `dt1` and `dt2` take dates). The model's whitelist is the sixteen attribute names plus `weeks`.
- `relativedelta` normalisation is not modelled. This covers carrying between units (`hours=25` stays 25 hours) and fractional values.
- `weekday` is an optional integer here. The source builds a weekday object (`MO`, `TU`, ...), which may carry an occurrence count.
  - `relativedelta` looks the integer up in its table of seven weekdays, so `weekday=7` and above is rejected with `ValidationError`. The model accepts it.
  - A weekday object is always true, and `%d` cannot format it. So the source's writer raises `TypeError` for every duration with a weekday set. The model instead writes `weekday=n`, and drops `weekday=0` (Monday) as false.
- The store keeps the writer as written. `CorrectedSerialize` is proved to round-trip, but `Encode` and the store use `Serialize`, so stored durations read back as `Canonical(d)`.
- Python 2 dictionary order is not modelled. The writer lists attributes in declaration order, where the source's order is that of `__dict__` iteration.
- Logging and the signal dispatcher are not modelled. The handler call of `setting_modified.send` is modelled by calling the reader's `Handle` (or `Deliver` over a log) with the notification.
- `get_string_value`, `value_to_string`, `formfield`, `get_internal_type`, `__unicode__`, the field's `max_length`, `CharField(max_length=254)` and translation strings are not modelled. They concern presentation, not the stored values.
- `django_settings/forms.py` is not part of this model. It is form and admin glue.
- SettingStore.GetValue: the default is an `Option`, so `get_value(name, default=None)` cannot be stated. Returning `None` as a value has no counterpart in this model.
- SettingStore.Create: the model is stricter than the source. The source's `create` runs no validator and converts the value to its column's type as it saves:
  - `String.objects.create(value=5)` stores "5" and succeeds, and the notification carries 5;
  - `Integer.objects.create(value="5")` stores 5;
  - only a value the conversion cannot handle fails, such as `int('abc')` raising `ValueError`.

  The model's `Admissible` instead rejects every value whose kind differs from the setting class, and `SetValue` then sends nothing. That kind match is the model's simplification of the conversion. The non-negative rule for `PositiveInteger` is a database constraint on some backends, and a form check in `django_settings/forms.py`; it is not a check of `create`. The model applies it at `create`. Database column widths are not modelled.
- User-defined value kinds are not modelled. The model has the four kinds in the source.

## Findings

| source | as written | input that shows it | evidently intended | confidence | as-written member | corrected member |
|---|---|---|---|---|---|---|
| django_settings/models.py:67 | The writer keeps only attributes whose value is true, so an absolute attribute set to 0 is dropped. | `relativedelta(hour=0, minute=0)` ("at midnight") is written as the empty text, which reads back as the zero duration. | Every set absolute attribute is written, so `to_python(get_prep_value(d)) == d`. | medium, not executed | `TimedeltaField.MidnightLost` | `TimedeltaField.CorrectedRoundTrip` |
| django_settings/models.py:112-117 | `set_value` deletes the old value object before `create` checks the new value. | Store an integer under a name, then call `set_value` on it with the class `Integer` and the value `'abc'`. `int('abc')` raises `ValueError`, and then `get_value(name)` raises `AttributeError` on the missing value object (modelled as the `NoValueObject` error). | A rejected value leaves the stored value in place. | medium, not executed | `SettingStore.FailedWriteLosesValue` | `SettingStore.CheckedWriteKeepsValue` |
| django_settings/models.py:156-159 | The handler assigns `_value = kwargs['value']`. That binds a name local to the handler, so the getter's `_value` never changes. | Make a reader for a stored name, then call `set_value` on that name with a new value. The getter still returns the old value. | The getter returns the last value sent for its name. | high, not executed | `AutoRefresh.StaleAfterWrite` | `AutoRefresh.FreshAfterWrite` |
