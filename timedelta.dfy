/**
 * The TimeDelta value kind: a relative duration (the record that
 * `dateutil.relativedelta` keeps) and the text form `TimedeltaField` stores
 * it as, `name=value` pairs joined by commas, e.g. "months=3,days=2".
 */
module TimedeltaField {
  import opened Wrappers
  import opened Numerals

  /** The public attributes of a relative duration, in declaration order. */
  datatype Field =
    | Years | Months | Days | Leapdays | Hours | Minutes | Seconds | Microseconds
    | Year | Month | Day | Weekday | Hour | Minute | Second | Microsecond

  const AllFields: seq<Field> :=
    [Years, Months, Days, Leapdays, Hours, Minutes, Seconds, Microseconds,
     Year, Month, Day, Weekday, Hour, Minute, Second, Microsecond]

  function Name(f: Field): string {
    match f
    case Years => "years"
    case Months => "months"
    case Days => "days"
    case Leapdays => "leapdays"
    case Hours => "hours"
    case Minutes => "minutes"
    case Seconds => "seconds"
    case Microseconds => "microseconds"
    case Year => "year"
    case Month => "month"
    case Day => "day"
    case Weekday => "weekday"
    case Hour => "hour"
    case Minute => "minute"
    case Second => "second"
    case Microsecond => "microsecond"
  }

  /**
   * A relative duration. The relative attributes (years ... microseconds)
   * are integers, 0 unless given; the absolute ones (year ... microsecond,
   * and weekday) are `None` unless given.
   */
  datatype Duration = Duration(
    years: int, months: int, days: int, leapdays: int,
    hours: int, minutes: int, seconds: int, microseconds: int,
    year: Option<int>, month: Option<int>, day: Option<int>, weekday: Option<int>,
    hour: Option<int>, minute: Option<int>, second: Option<int>, microsecond: Option<int>)

  const Zero: Duration := Duration(0, 0, 0, 0, 0, 0, 0, 0, None, None, None, None, None, None, None, None)

  /** The absolute attributes are the last eight. */
  predicate IsAbsolute(f: Field) {
    Index(f) >= 8
  }

  /** The attribute as the duration holds it; a relative attribute is always there. */
  function Slot(d: Duration, f: Field): Option<int> {
    match f
    case Years => Some(d.years)
    case Months => Some(d.months)
    case Days => Some(d.days)
    case Leapdays => Some(d.leapdays)
    case Hours => Some(d.hours)
    case Minutes => Some(d.minutes)
    case Seconds => Some(d.seconds)
    case Microseconds => Some(d.microseconds)
    case Year => d.year
    case Month => d.month
    case Day => d.day
    case Weekday => d.weekday
    case Hour => d.hour
    case Minute => d.minute
    case Second => d.second
    case Microsecond => d.microsecond
  }

  function OrZero(x: Option<int>): int {
    if x.Some? then x.value else 0
  }

  /** The attribute's value; an absolute attribute that is not given counts as 0. */
  function Get(d: Duration, f: Field): int {
    OrZero(Slot(d, f))
  }

  /** Two durations that hold the same attributes are the same duration. */
  lemma Extensionality(d: Duration, e: Duration)
    requires forall f :: Slot(d, f) == Slot(e, f)
    ensures d == e
  {
    assert Slot(d, Years) == Slot(e, Years) && Slot(d, Months) == Slot(e, Months);
    assert Slot(d, Days) == Slot(e, Days) && Slot(d, Leapdays) == Slot(e, Leapdays);
    assert Slot(d, Hours) == Slot(e, Hours) && Slot(d, Minutes) == Slot(e, Minutes);
    assert Slot(d, Seconds) == Slot(e, Seconds) && Slot(d, Microseconds) == Slot(e, Microseconds);
    assert Slot(d, Year) == Slot(e, Year) && Slot(d, Month) == Slot(e, Month);
    assert Slot(d, Day) == Slot(e, Day) && Slot(d, Weekday) == Slot(e, Weekday);
    assert Slot(d, Hour) == Slot(e, Hour) && Slot(d, Minute) == Slot(e, Minute);
    assert Slot(d, Second) == Slot(e, Second) && Slot(d, Microsecond) == Slot(e, Microsecond);
  }

  lemma RelativeSlot(d: Duration, f: Field)
    requires !IsAbsolute(f)
    ensures Slot(d, f) == Some(Get(d, f))
  {
  }

  lemma EveryFieldListed(f: Field)
    ensures f in AllFields
  {
    match f
    case Years => assert AllFields[0] == f;
    case Months => assert AllFields[1] == f;
    case Days => assert AllFields[2] == f;
    case Leapdays => assert AllFields[3] == f;
    case Hours => assert AllFields[4] == f;
    case Minutes => assert AllFields[5] == f;
    case Seconds => assert AllFields[6] == f;
    case Microseconds => assert AllFields[7] == f;
    case Year => assert AllFields[8] == f;
    case Month => assert AllFields[9] == f;
    case Day => assert AllFields[10] == f;
    case Weekday => assert AllFields[11] == f;
    case Hour => assert AllFields[12] == f;
    case Minute => assert AllFields[13] == f;
    case Second => assert AllFields[14] == f;
    case Microsecond => assert AllFields[15] == f;
  }

  /** Position of a field in `AllFields`. */
  function Index(f: Field): nat {
    match f
    case Years => 0 case Months => 1 case Days => 2 case Leapdays => 3
    case Hours => 4 case Minutes => 5 case Seconds => 6 case Microseconds => 7
    case Year => 8 case Month => 9 case Day => 10 case Weekday => 11
    case Hour => 12 case Minute => 13 case Second => 14 case Microsecond => 15
  }

  lemma IndexAt(i: nat)
    requires i < |AllFields|
    ensures Index(AllFields[i]) == i
  {
    if i < 8 {
      if i < 4 { } else { }
    } else {
      if i < 12 { } else { }
    }
  }

  predicate Distinct(fs: seq<Field>) {
    forall i, j :: 0 <= i < j < |fs| ==> fs[i] != fs[j]
  }

  lemma AllFieldsDistinct()
    ensures Distinct(AllFields)
  {
    forall i, j | 0 <= i < j < |AllFields| ensures AllFields[i] != AllFields[j] {
      IndexAt(i);
      IndexAt(j);
    }
  }

  // ---------------------------------------------------------------------
  // What reading back loses
  // ---------------------------------------------------------------------

  function Unset0(x: Option<int>): Option<int> {
    if x == Some(0) then None else x
  }

  /**
   * `d` with every absolute attribute that is set to 0 made unset: the
   * duration its stored text stands for.
   */
  function Canonical(d: Duration): Duration {
    d.(year := Unset0(d.year), month := Unset0(d.month), day := Unset0(d.day), weekday := Unset0(d.weekday),
       hour := Unset0(d.hour), minute := Unset0(d.minute), second := Unset0(d.second),
       microsecond := Unset0(d.microsecond))
  }

  /** No absolute attribute is set to 0. */
  predicate NoAbsoluteZero(d: Duration) {
    forall f :: IsAbsolute(f) ==> Slot(d, f) != Some(0)
  }

  lemma SlotCanonical(d: Duration, f: Field)
    ensures Slot(Canonical(d), f) == if IsAbsolute(f) then Unset0(Slot(d, f)) else Slot(d, f)
  {
  }

  /** `Canonical` changes nothing exactly for the durations with no absolute attribute set to 0. */
  lemma CanonicalFixed(d: Duration)
    ensures Canonical(d) == d <==> NoAbsoluteZero(d)
  {
    if NoAbsoluteZero(d) {
      forall f ensures Slot(Canonical(d), f) == Slot(d, f) {
        SlotCanonical(d, f);
      }
      Extensionality(Canonical(d), d);
    }
    if Canonical(d) == d {
      forall f | IsAbsolute(f) ensures Slot(d, f) != Some(0) {
        SlotCanonical(d, f);
      }
    }
  }

  // ---------------------------------------------------------------------
  // Writing a duration out (get_prep_value)
  // ---------------------------------------------------------------------

  /** The private `_has_time` flag a relative duration also carries. */
  function HasTime(d: Duration): int {
    if d.hours != 0 || d.minutes != 0 || d.seconds != 0 || d.microseconds != 0
       || d.hour.Some? || d.minute.Some? || d.second.Some? || d.microsecond.Some?
    then 1 else 0
  }

  function AttributesOf(d: Duration, fs: seq<Field>): seq<(string, Option<int>)> {
    if fs == [] then [] else [(Name(fs[0]), Slot(d, fs[0]))] + AttributesOf(d, fs[1..])
  }

  /** The instance dictionary of a duration: its public attributes and the private flag. */
  function Attributes(d: Duration): seq<(string, Option<int>)> {
    AttributesOf(d, AllFields) + [("_has_time", Some(HasTime(d)))]
  }

  predicate IsPrivate(name: string) { |name| > 0 && name[0] == '_' }

  /** Python truth of an attribute value: `None` and 0 are false. */
  predicate Truthy(x: Option<int>) { x.Some? && x.value != 0 }

  /** The attributes the writer keeps: public name and true value. */
  function Kept(attrs: seq<(string, Option<int>)>): seq<(string, Option<int>)> {
    if attrs == [] then []
    else (if !IsPrivate(attrs[0].0) && Truthy(attrs[0].1) then [attrs[0]] else []) + Kept(attrs[1..])
  }

  /** Each attribute as `'%s=%d' % (name, value)`. */
  function Formatted(attrs: seq<(string, Option<int>)>): seq<string> {
    if attrs == [] then [] else [attrs[0].0 + "=" + IntToString(OrZero(attrs[0].1))] + Formatted(attrs[1..])
  }

  /** `','.join(items)` */
  function Join(items: seq<string>): string {
    if |items| == 0 then ""
    else if |items| == 1 then items[0]
    else items[0] + "," + Join(items[1..])
  }

  /** The stored text of a duration, as the field writes it. */
  function Serialize(d: Duration): string {
    Join(Formatted(Kept(Attributes(d))))
  }

  /**
   * Which attributes a writer lists. As written, the true ones. Corrected,
   * also an absolute attribute that is set to 0.
   */
  datatype Writer = AsWritten | Corrected

  predicate Emits(w: Writer, d: Duration, f: Field) {
    if w.Corrected? && IsAbsolute(f) then Slot(d, f).Some? else Get(d, f) != 0
  }

  /** Reference description of the written items: `name=value` for each field of `fs` the writer lists, in order. */
  function FieldItems(w: Writer, d: Duration, fs: seq<Field>): seq<string> {
    if fs == [] then []
    else (if Emits(w, d, fs[0]) then [Name(fs[0]) + "=" + IntToString(Get(d, fs[0]))] else [])
         + FieldItems(w, d, fs[1..])
  }

  /** The corrected writer: every relative attribute that is not 0 and every absolute attribute that is set. */
  function CorrectedSerialize(d: Duration): string {
    Join(FieldItems(Corrected, d, AllFields))
  }

  /** What reading back the text of writer `w` should give: as written, absolute zeros are lost. */
  function Reread(w: Writer, d: Duration): Duration {
    if w.AsWritten? then Canonical(d) else d
  }

  // ---------------------------------------------------------------------
  // Reading a duration back (to_python)
  // ---------------------------------------------------------------------

  /** A keyword the duration constructor accepts: a field, or `weeks` (added to days as 7 each). */
  datatype Keyword = FieldKeyword(field: Field) | Weeks

  const Whitelist: set<string> :=
    {"years", "months", "days", "leapdays", "weeks", "hours", "minutes", "seconds",
     "microseconds", "year", "month", "day", "weekday", "hour", "minute", "second",
     "microsecond"}

  function LookupKeyword(key: string): Option<Keyword> {
    if key == "years" then Some(FieldKeyword(Years))
    else if key == "months" then Some(FieldKeyword(Months))
    else if key == "days" then Some(FieldKeyword(Days))
    else if key == "leapdays" then Some(FieldKeyword(Leapdays))
    else if key == "weeks" then Some(Weeks)
    else if key == "hours" then Some(FieldKeyword(Hours))
    else if key == "minutes" then Some(FieldKeyword(Minutes))
    else if key == "seconds" then Some(FieldKeyword(Seconds))
    else if key == "microseconds" then Some(FieldKeyword(Microseconds))
    else if key == "year" then Some(FieldKeyword(Year))
    else if key == "month" then Some(FieldKeyword(Month))
    else if key == "day" then Some(FieldKeyword(Day))
    else if key == "weekday" then Some(FieldKeyword(Weekday))
    else if key == "hour" then Some(FieldKeyword(Hour))
    else if key == "minute" then Some(FieldKeyword(Minute))
    else if key == "second" then Some(FieldKeyword(Second))
    else if key == "microsecond" then Some(FieldKeyword(Microsecond))
    else None
  }

  /** The whitelist is exactly the set of keys the lookup knows. */
  lemma WhitelistIsLookup(key: string)
    ensures key in Whitelist <==> LookupKeyword(key).Some?
  {
  }

  /** Ways the argument text can be rejected. */
  datatype SyntaxError =
    | MissingEquals(token: string)
    | UnknownKeyword(key: string)
    | NotAnInteger(text: string)
    | RepeatedKeyword(keyword: Keyword)

  function IndexOf(s: string, c: char): (i: nat)
    requires c in s
    ensures i < |s| && s[i] == c && c !in s[..i]
  {
    if s[0] == c then 0 else 1 + IndexOf(s[1..], c)
  }

  /** The pieces of `s` between commas. */
  function Split(s: string): (parts: seq<string>)
    ensures |parts| > 0
    decreases |s|
  {
    if ',' in s then
      var i := IndexOf(s, ',');
      [s[..i]] + Split(s[i + 1..])
    else [s]
  }

  /** One `key=value` argument. */
  function ParseToken(t: string): Result<(Keyword, int), SyntaxError> {
    if '=' !in t then Failure(MissingEquals(t))
    else
      var i := IndexOf(t, '=');
      match LookupKeyword(t[..i])
      case None => Failure(UnknownKeyword(t[..i]))
      case Some(k) =>
        match ParseInt(t[i + 1..])
        case None => Failure(NotAnInteger(t[i + 1..]))
        case Some(n) => Success((k, n))
  }

  predicate HasKeyword(ps: seq<(Keyword, int)>, k: Keyword) {
    ps != [] && (ps[0].0 == k || HasKeyword(ps[1..], k))
  }

  /** All arguments; a keyword given twice is an error, as for a Python call. */
  function ParseTokens(ts: seq<string>): Result<seq<(Keyword, int)>, SyntaxError> {
    if ts == [] then Success([])
    else
      var p :- ParseToken(ts[0]);
      var ps :- ParseTokens(ts[1..]);
      if HasKeyword(ps, p.0) then Failure(RepeatedKeyword(p.0)) else Success([p] + ps)
  }

  /** The value given for `k`, 0 when it is not given. */
  function ValueOf(ps: seq<(Keyword, int)>, k: Keyword): int {
    if ps == [] then 0 else if ps[0].0 == k then ps[0].1 else ValueOf(ps[1..], k)
  }

  function Given(ps: seq<(Keyword, int)>, f: Field): int {
    ValueOf(ps, FieldKeyword(f))
  }

  /** An absolute attribute is set exactly when its keyword is given. */
  function Absolute(ps: seq<(Keyword, int)>, f: Field): Option<int> {
    if HasKeyword(ps, FieldKeyword(f)) then Some(Given(ps, f)) else None
  }

  /** The duration built from keyword arguments. */
  function Assemble(ps: seq<(Keyword, int)>): Duration {
    Duration(Given(ps, Years), Given(ps, Months), Given(ps, Days) + 7 * ValueOf(ps, Weeks), Given(ps, Leapdays),
             Given(ps, Hours), Given(ps, Minutes), Given(ps, Seconds), Given(ps, Microseconds),
             Absolute(ps, Year), Absolute(ps, Month), Absolute(ps, Day), Absolute(ps, Weekday),
             Absolute(ps, Hour), Absolute(ps, Minute), Absolute(ps, Second), Absolute(ps, Microsecond))
  }

  /** The argument list `s` read as the keyword arguments of a duration; "" is no argument. */
  function ParseArguments(s: string): Result<Duration, SyntaxError> {
    if s == "" then Success(Zero)
    else
      var ps :- ParseTokens(Split(s));
      Success(Assemble(ps))
  }

  // ---------------------------------------------------------------------
  // The field's conversions
  // ---------------------------------------------------------------------

  /** What the field may be handed: nothing, a duration, or stored text. */
  datatype FieldValue = NoValue | Delta(duration: Duration) | Text(text: string)

  datatype ValidationError = ValidationError(message: string)

  const ParseErrorMessage: string := "Not a real time delta. Please use value hours=xx,minutes=xx,..."
  const NotDeltaMessage: string := "Not a relative time delta"

  /** `to_python`: nothing and durations pass through; text is parsed, any failure is a ValidationError. */
  function ToPython(v: FieldValue): Result<FieldValue, ValidationError> {
    match v
    case NoValue => Success(v)
    case Delta(_) => Success(v)
    case Text(s) =>
      match ParseArguments(s)
      case Success(d) => Success(Delta(d))
      case Failure(_) => Failure(ValidationError(ParseErrorMessage))
  }

  /** `get_prep_value`: a duration becomes its text; anything else is returned as it is. */
  function GetPrepValue(v: FieldValue): FieldValue {
    if v.Delta? then Text(Serialize(v.duration)) else v
  }

  /** `_validate`: only a duration is acceptable. */
  function Validate(v: FieldValue): Option<ValidationError> {
    if v.Delta? then None else Some(ValidationError(NotDeltaMessage))
  }

  // ---------------------------------------------------------------------
  // What the writer emits
  // ---------------------------------------------------------------------

  lemma NameFacts(f: Field)
    ensures |Name(f)| > 0 && !IsPrivate(Name(f))
    ensures ',' !in Name(f) && '=' !in Name(f)
    ensures Name(f) in Whitelist && LookupKeyword(Name(f)) == Some(FieldKeyword(f))
  {
  }

  lemma {:induction false} KeptAttributes(d: Duration, fs: seq<Field>, tail: seq<(string, Option<int>)>)
    ensures Formatted(Kept(AttributesOf(d, fs) + tail)) == FieldItems(AsWritten, d, fs) + Formatted(Kept(tail))
    decreases |fs|
  {
    if fs == [] {
      assert AttributesOf(d, fs) + tail == tail;
    } else {
      var f := fs[0];
      var rest := AttributesOf(d, fs[1..]) + tail;
      assert AttributesOf(d, fs) + tail == [(Name(f), Slot(d, f))] + rest;
      KeptAttributes(d, fs[1..], tail);
      NamePublic(f);
      KeptStep(Name(f), Slot(d, f), rest, FieldItems(AsWritten, d, fs[1..]), Formatted(Kept(tail)));
      assert fs == [f] + fs[1..];
      FieldItemsCons(AsWritten, d, f, fs[1..]);
    }
  }

  lemma NamePublic(f: Field)
    ensures !IsPrivate(Name(f))
  {
  }

  /** One public attribute in front: it is written exactly when its value is true. */
  lemma KeptStep(name: string, v: Option<int>, rest: seq<(string, Option<int>)>, a: seq<string>, b: seq<string>)
    requires !IsPrivate(name) && Formatted(Kept(rest)) == a + b
    ensures Formatted(Kept([(name, v)] + rest))
      == ((if OrZero(v) != 0 then [name + "=" + IntToString(OrZero(v))] else []) + a) + b
  {
    var x := (name, v);
    assert ([x] + rest)[0] == x && ([x] + rest)[1..] == rest;
    if Truthy(v) {
      var k := [x] + Kept(rest);
      assert Kept([x] + rest) == k;
      assert k[0] == x && k[1..] == Kept(rest);
      assert Formatted(k) == [name + "=" + IntToString(OrZero(v))] + Formatted(Kept(rest));
    } else {
      assert Kept([x] + rest) == Kept(rest);
      assert [] + a == a;
    }
  }

  /** The private flag is never written: the text is made of the true public attributes only. */
  lemma SerializeIsFieldItems(d: Duration)
    ensures Serialize(d) == Join(FieldItems(AsWritten, d, AllFields))
  {
    KeptAttributes(d, AllFields, [("_has_time", Some(HasTime(d)))]);
    assert Kept([("_has_time", Some(HasTime(d)))]) == [];
    assert FieldItems(AsWritten, d, AllFields) + [] == FieldItems(AsWritten, d, AllFields);
  }

  lemma FieldItemsCons(w: Writer, d: Duration, f: Field, fs: seq<Field>)
    ensures FieldItems(w, d, [f] + fs)
      == (if Emits(w, d, f) then [Name(f) + "=" + IntToString(Get(d, f))] else []) + FieldItems(w, d, fs)
  {
    assert ([f] + fs)[0] == f && ([f] + fs)[1..] == fs;
  }

  lemma {:induction false} FieldItemsEmpty(w: Writer, d: Duration, fs: seq<Field>)
    ensures FieldItems(w, d, fs) == [] <==> forall f :: f in fs ==> !Emits(w, d, f)
  {
    if fs != [] {
      FieldItemsEmpty(w, d, fs[1..]);
      assert forall f :: f in fs <==> f == fs[0] || f in fs[1..];
    }
  }

  lemma {:induction false} FieldItemsShape(w: Writer, d: Duration, fs: seq<Field>)
    ensures forall i :: 0 <= i < |FieldItems(w, d, fs)| ==> |FieldItems(w, d, fs)[i]| > 0 && ',' !in FieldItems(w, d, fs)[i]
  {
    if fs != [] {
      FieldItemsShape(w, d, fs[1..]);
      NameFacts(fs[0]);
      IntToStringHasNoSeparator(Get(d, fs[0]));
    }
  }

  lemma {:induction false} FieldItemsMember(w: Writer, d: Duration, fs: seq<Field>, f: Field)
    requires Distinct(fs) && f in fs
    ensures Name(f) + "=" + IntToString(Get(d, f)) in FieldItems(w, d, fs) <==> Emits(w, d, f)
  {
    var g := fs[0];
    if g == f {
      if !Emits(w, d, f) {
        assert f !in fs[1..] by {
          forall j | 0 <= j < |fs[1..]| ensures fs[1..][j] != f { assert fs[j + 1] != fs[0]; }
        }
        FieldItemsNoOther(w, d, fs[1..], f);
      }
    } else {
      assert f in fs[1..];
      assert Distinct(fs[1..]) by {
        forall i, j | 0 <= i < j < |fs[1..]| ensures fs[1..][i] != fs[1..][j] { assert fs[i + 1] != fs[j + 1]; }
      }
      FieldItemsMember(w, d, fs[1..], f);
      if Emits(w, d, g) {
        NameDeterminesItem(g, f, Get(d, g), Get(d, f));
      }
    }
  }

  /** An item names the field it was written for. */
  lemma NameDeterminesItem(f: Field, g: Field, m: int, n: int)
    requires f != g
    ensures Name(f) + "=" + IntToString(m) != Name(g) + "=" + IntToString(n)
  {
    KeyOfItem(f, m);
    KeyOfItem(g, n);
    NameInjective(f, g);
  }

  lemma NameInjective(f: Field, g: Field)
    requires f != g
    ensures Name(f) != Name(g)
  {
    NameFacts(f);
    NameFacts(g);
  }

  /** The key of an item is the text before its first '='. */
  lemma KeyOfItem(f: Field, n: int)
    ensures var t := Name(f) + "=" + IntToString(n);
      '=' in t && t[..IndexOf(t, '=')] == Name(f) && t[IndexOf(t, '=') + 1..] == IntToString(n)
  {
    var t := Name(f) + "=" + IntToString(n);
    NameFacts(f);
    assert t == Name(f) + ['='] + IntToString(n);
    IndexOfConcat(Name(f), '=', IntToString(n));
    assert t[..|Name(f)|] == Name(f);
    assert t[|Name(f)| + 1..] == IntToString(n);
  }

  lemma {:induction false} FieldItemsNoOther(w: Writer, d: Duration, fs: seq<Field>, f: Field)
    requires f !in fs
    ensures forall n :: Name(f) + "=" + IntToString(n) !in FieldItems(w, d, fs)
  {
    if fs != [] {
      assert f != fs[0];
      assert f !in fs[1..];
      FieldItemsNoOther(w, d, fs[1..], f);
      forall n ensures Name(f) + "=" + IntToString(n) != Name(fs[0]) + "=" + IntToString(Get(d, fs[0])) {
        NameDeterminesItem(f, fs[0], n, Get(d, fs[0]));
      }
    }
  }

  /** What a writer lists decides what reading it back gives: a relative attribute keeps its value, an absolute one is set exactly when listed. */
  lemma RereadSlot(w: Writer, d: Duration, f: Field)
    ensures Slot(Reread(w, d), f) ==
      if !IsAbsolute(f) then Some(Get(d, f))
      else if Emits(w, d, f) then Some(Get(d, f)) else None
  {
    SlotCanonical(d, f);
    if !IsAbsolute(f) {
      RelativeSlot(d, f);
    }
  }

  /** A writer writes nothing exactly when reading back is to give the zero duration. */
  lemma ItemsEmptyIffZero(w: Writer, d: Duration)
    ensures FieldItems(w, d, AllFields) == [] <==> Reread(w, d) == Zero
  {
    FieldItemsEmpty(w, d, AllFields);
    if forall f :: f in AllFields ==> !Emits(w, d, f) {
      forall f ensures !Emits(w, d, f) { EveryFieldListed(f); }
      NothingWrittenIsZero(w, d);
    }
    if Reread(w, d) == Zero {
      forall f ensures !Emits(w, d, f) {
        ZeroWritesNothing(w, d, f);
      }
    }
  }

  lemma NothingWrittenIsZero(w: Writer, d: Duration)
    requires forall f :: !Emits(w, d, f)
    ensures Reread(w, d) == Zero
  {
    forall f ensures Slot(Reread(w, d), f) == Slot(Zero, f) {
      assert !Emits(w, d, f);
      RereadSlot(w, d, f);
      SlotZero(f);
      if !IsAbsolute(f) {
        assert Get(d, f) == 0;
      }
    }
    Extensionality(Reread(w, d), Zero);
  }

  lemma ZeroWritesNothing(w: Writer, d: Duration, f: Field)
    requires Reread(w, d) == Zero
    ensures !Emits(w, d, f)
  {
    RereadSlot(w, d, f);
    SlotZero(f);
  }

  lemma SlotZero(f: Field)
    ensures Slot(Zero, f) == if IsAbsolute(f) then None else Some(0)
  {
  }

  /** As written, the empty text stands for every duration whose attributes are all 0 or unset. */
  lemma SerializeEmptyIffZero(d: Duration)
    ensures Serialize(d) == "" <==> Canonical(d) == Zero
    ensures Serialize(d) == "" <==> forall f :: Get(d, f) == 0
  {
    SerializeIsFieldItems(d);
    ItemsEmptyIffZero(AsWritten, d);
    FieldItemsEmpty(AsWritten, d, AllFields);
    FieldItemsShape(AsWritten, d, AllFields);
    var items := FieldItems(AsWritten, d, AllFields);
    if items != [] {
      JoinNonEmpty(items);
    }
    if forall f :: f in AllFields ==> Get(d, f) == 0 {
      forall f ensures Get(d, f) == 0 { EveryFieldListed(f); }
    }
  }

  /**
   * The written text lists, in order, `name=value` for exactly the fields
   * whose value is true, and nothing else.
   */
  lemma SerializedItems(d: Duration)
    requires Serialize(d) != ""
    ensures Split(Serialize(d)) == FieldItems(AsWritten, d, AllFields)
    ensures forall f :: Name(f) + "=" + IntToString(Get(d, f)) in Split(Serialize(d)) <==> Get(d, f) != 0
  {
    SerializeIsFieldItems(d);
    FieldItemsShape(AsWritten, d, AllFields);
    SplitJoin(FieldItems(AsWritten, d, AllFields));
    AllFieldsDistinct();
    forall f ensures Name(f) + "=" + IntToString(Get(d, f)) in FieldItems(AsWritten, d, AllFields) <==> Get(d, f) != 0 {
      EveryFieldListed(f);
      FieldItemsMember(AsWritten, d, AllFields, f);
    }
  }

  lemma {:induction false} JoinNonEmpty(items: seq<string>)
    requires |items| > 0 && |items[0]| > 0
    ensures |Join(items)| > 0
  {
  }

  // ---------------------------------------------------------------------
  // Splitting the joined text
  // ---------------------------------------------------------------------

  lemma {:induction false} IndexOfConcat(a: string, c: char, b: string)
    requires c !in a
    ensures c in a + [c] + b && IndexOf(a + [c] + b, c) == |a|
  {
    var s := a + [c] + b;
    assert s[|a|] == c;
    if a != [] {
      assert s[0] == a[0];
      assert s[1..] == a[1..] + [c] + b;
      IndexOfConcat(a[1..], c, b);
    }
  }

  lemma {:induction false} SplitJoin(items: seq<string>)
    requires |items| > 0
    requires forall i :: 0 <= i < |items| ==> ',' !in items[i]
    ensures Split(Join(items)) == items
  {
    if |items| > 1 {
      SplitCons(items[0], Join(items[1..]));
      SplitJoin(items[1..]);
      assert items == [items[0]] + items[1..];
    }
  }

  lemma SplitCons(a: string, b: string)
    requires ',' !in a
    ensures Split(a + "," + b) == [a] + Split(b)
  {
    var s := a + "," + b;
    assert s == a + [','] + b;
    IndexOfConcat(a, ',', b);
    assert s[..|a|] == a;
    assert s[|a| + 1..] == b;
  }

  // ---------------------------------------------------------------------
  // Reading the written text back
  // ---------------------------------------------------------------------

  /** Reference description of the keyword arguments a written text stands for. */
  function FieldPairs(w: Writer, d: Duration, fs: seq<Field>): seq<(Keyword, int)> {
    if fs == [] then []
    else (if Emits(w, d, fs[0]) then [(FieldKeyword(fs[0]), Get(d, fs[0]))] else [])
         + FieldPairs(w, d, fs[1..])
  }

  lemma ParseItem(f: Field, n: int)
    ensures ParseToken(Name(f) + "=" + IntToString(n)) == Success((FieldKeyword(f), n))
  {
    KeyOfItem(f, n);
    NameFacts(f);
    ParseIntToString(n);
  }

  lemma {:induction false} FieldPairsKeywords(w: Writer, d: Duration, fs: seq<Field>, k: Keyword)
    requires HasKeyword(FieldPairs(w, d, fs), k)
    ensures k.FieldKeyword? && k.field in fs && Emits(w, d, k.field)
  {
    var g := fs[0];
    var ps := FieldPairs(w, d, fs);
    if Emits(w, d, g) && ps[0].0 == k {
    } else {
      if Emits(w, d, g) {
        assert ps[1..] == FieldPairs(w, d, fs[1..]);
      } else {
        assert ps == FieldPairs(w, d, fs[1..]);
      }
      FieldPairsKeywords(w, d, fs[1..], k);
    }
  }

  lemma DistinctTail(fs: seq<Field>)
    requires fs != [] && Distinct(fs)
    ensures Distinct(fs[1..]) && fs[0] !in fs[1..]
  {
    forall i, j | 0 <= i < j < |fs[1..]| ensures fs[1..][i] != fs[1..][j] {
      assert fs[i + 1] != fs[j + 1];
    }
    forall j | 0 <= j < |fs[1..]| ensures fs[1..][j] != fs[0] {
      assert fs[j + 1] != fs[0];
    }
  }

  /** One step of reading: a fresh keyword in front of arguments that parse. */
  lemma ParseTokensCons(t: string, ts: seq<string>, p: (Keyword, int), ps: seq<(Keyword, int)>)
    requires ParseToken(t) == Success(p) && ParseTokens(ts) == Success(ps) && !HasKeyword(ps, p.0)
    ensures ParseTokens([t] + ts) == Success([p] + ps)
  {
    assert ([t] + ts)[0] == t && ([t] + ts)[1..] == ts;
  }

  lemma {:induction false} ParseFieldItems(w: Writer, d: Duration, fs: seq<Field>)
    requires Distinct(fs)
    ensures ParseTokens(FieldItems(w, d, fs)) == Success(FieldPairs(w, d, fs))
  {
    if fs != [] {
      var f := fs[0];
      DistinctTail(fs);
      ParseFieldItems(w, d, fs[1..]);
      if Emits(w, d, f) {
        ParseItem(f, Get(d, f));
        if HasKeyword(FieldPairs(w, d, fs[1..]), FieldKeyword(f)) {
          FieldPairsKeywords(w, d, fs[1..], FieldKeyword(f));
        }
        ParseTokensCons(Name(f) + "=" + IntToString(Get(d, f)), FieldItems(w, d, fs[1..]),
                        (FieldKeyword(f), Get(d, f)), FieldPairs(w, d, fs[1..]));
      } else {
        assert FieldItems(w, d, fs) == [] + FieldItems(w, d, fs[1..]) == FieldItems(w, d, fs[1..]);
        assert FieldPairs(w, d, fs) == [] + FieldPairs(w, d, fs[1..]) == FieldPairs(w, d, fs[1..]);
      }
    }
  }

  lemma {:induction false} ValueOfFieldPairs(w: Writer, d: Duration, fs: seq<Field>, f: Field)
    ensures HasKeyword(FieldPairs(w, d, fs), FieldKeyword(f)) <==> f in fs && Emits(w, d, f)
    ensures ValueOf(FieldPairs(w, d, fs), FieldKeyword(f)) == if f in fs && Emits(w, d, f) then Get(d, f) else 0
    ensures ValueOf(FieldPairs(w, d, fs), Weeks) == 0
  {
    if fs != [] {
      ValueOfFieldPairs(w, d, fs[1..], f);
      var ps := FieldPairs(w, d, fs);
      if Emits(w, d, fs[0]) {
        assert ps[0] == (FieldKeyword(fs[0]), Get(d, fs[0]));
        assert ps[1..] == FieldPairs(w, d, fs[1..]);
      } else {
        assert ps == [] + FieldPairs(w, d, fs[1..]) == FieldPairs(w, d, fs[1..]);
      }
      assert f in fs <==> f == fs[0] || f in fs[1..];
    }
  }

  /** The attributes of the duration built from arguments. */
  lemma SlotAssemble(ps: seq<(Keyword, int)>, f: Field)
    ensures Slot(Assemble(ps), f) ==
      if IsAbsolute(f) then Absolute(ps, f)
      else if f == Days then Some(Given(ps, Days) + 7 * ValueOf(ps, Weeks))
      else Some(Given(ps, f))
  {
    var d := Assemble(ps);
    if IsAbsolute(f) {
      match f
      case Year => assert d.year == Absolute(ps, Year);
      case Month => assert d.month == Absolute(ps, Month);
      case Day => assert d.day == Absolute(ps, Day);
      case Weekday => assert d.weekday == Absolute(ps, Weekday);
      case Hour => assert d.hour == Absolute(ps, Hour);
      case Minute => assert d.minute == Absolute(ps, Minute);
      case Second => assert d.second == Absolute(ps, Second);
      case Microsecond => assert d.microsecond == Absolute(ps, Microsecond);
    }
  }

  lemma AssembleFieldPairs(w: Writer, d: Duration)
    ensures Assemble(FieldPairs(w, d, AllFields)) == Reread(w, d)
  {
    var ps := FieldPairs(w, d, AllFields);
    forall f ensures Slot(Assemble(ps), f) == Slot(Reread(w, d), f) {
      EveryFieldListed(f);
      ValueOfFieldPairs(w, d, AllFields, f);
      SlotAssemble(ps, f);
      RereadSlot(w, d, f);
    }
    Extensionality(Assemble(ps), Reread(w, d));
  }

  /** Reading back what writer `w` writes gives `Reread(w, d)`. */
  lemma ParseItems(w: Writer, d: Duration)
    ensures ParseArguments(Join(FieldItems(w, d, AllFields))) == Success(Reread(w, d))
  {
    var items := FieldItems(w, d, AllFields);
    ItemsEmptyIffZero(w, d);
    FieldItemsShape(w, d, AllFields);
    if items != [] {
      JoinNonEmpty(items);
      SplitJoin(items);
      AllFieldsDistinct();
      ParseFieldItems(w, d, AllFields);
      AssembleFieldPairs(w, d);
    }
  }

  /** Reading back the stored text of a duration gives it with its absolute zeros unset. */
  lemma ParseSerialize(d: Duration)
    ensures ParseArguments(Serialize(d)) == Success(Canonical(d))
  {
    SerializeIsFieldItems(d);
    ParseItems(AsWritten, d);
  }

  /** With the corrected writer, reading back gives every duration exactly. */
  lemma CorrectedParseSerialize(d: Duration)
    ensures ParseArguments(CorrectedSerialize(d)) == Success(d)
  {
    ParseItems(Corrected, d);
  }

  /**
   * `to_python(get_prep_value(d))` gives `d` with its absolute zeros unset,
   * which is `d` itself exactly when no absolute attribute is set to 0.
   */
  lemma RoundTrip(d: Duration)
    ensures GetPrepValue(Delta(d)) == Text(Serialize(d))
    ensures ToPython(GetPrepValue(Delta(d))) == Success(Delta(Canonical(d)))
    ensures ToPython(GetPrepValue(Delta(d))) == Success(Delta(d)) <==> NoAbsoluteZero(d)
  {
    ParseSerialize(d);
    CanonicalFixed(d);
  }

  /** The corrected writer's text is read back by `to_python` as exactly the duration written. */
  lemma CorrectedRoundTrip(d: Duration)
    ensures ToPython(Text(CorrectedSerialize(d))) == Success(Delta(d))
    ensures CorrectedSerialize(d) == "" <==> d == Zero
  {
    CorrectedParseSerialize(d);
    ItemsEmptyIffZero(Corrected, d);
    FieldItemsShape(Corrected, d, AllFields);
    if FieldItems(Corrected, d, AllFields) != [] {
      JoinNonEmpty(FieldItems(Corrected, d, AllFields));
    }
  }

  /** The written text depends only on the values of the attributes. */
  lemma {:induction false} FieldItemsSameValues(d: Duration, e: Duration, fs: seq<Field>)
    requires forall f :: Get(d, f) == Get(e, f)
    ensures FieldItems(AsWritten, d, fs) == FieldItems(AsWritten, e, fs)
  {
    if fs != [] {
      FieldItemsSameValues(d, e, fs[1..]);
    }
  }

  lemma GetCanonical(d: Duration, f: Field)
    ensures Get(Canonical(d), f) == Get(d, f)
  {
    SlotCanonical(d, f);
  }

  /** Reading is idempotent: what `to_python` returns, it returns unchanged. */
  lemma ToPythonIdempotent(v: FieldValue)
    requires ToPython(v).Success?
    ensures ToPython(v).value.NoValue? || ToPython(v).value.Delta?
    ensures ToPython(ToPython(v).value) == ToPython(v)
    ensures !v.Text? ==> ToPython(v) == Success(v)
  {
  }

  /** Only durations are converted by the writer; nothing and text pass through. */
  lemma GetPrepValuePassThrough(v: FieldValue)
    ensures !v.Delta? ==> GetPrepValue(v) == v
    ensures GetPrepValue(v).NoValue? || GetPrepValue(v).Text?
  {
  }

  /**
   * Reading and writing again changes nothing: the text written for a duration
   * read from text reads back as a duration that is written as the same text.
   * That duration is `Canonical(d)`, which is `d` itself exactly when the text
   * set no absolute attribute to 0.
   */
  lemma SerializeParseIdempotent(s: string, d: Duration)
    requires ParseArguments(s) == Success(d)
    ensures var t := Serialize(d);
      ParseArguments(t).Success? && Serialize(ParseArguments(t).value) == t
    ensures ParseArguments(Serialize(d)) == Success(Canonical(d))
    ensures ParseArguments(Serialize(d)) == Success(d) <==> NoAbsoluteZero(d)
  {
    ParseSerialize(d);
    CanonicalFixed(d);
    forall f ensures Get(Canonical(d), f) == Get(d, f) {
      GetCanonical(d, f);
    }
    FieldItemsSameValues(Canonical(d), d, AllFields);
    SerializeIsFieldItems(d);
    SerializeIsFieldItems(Canonical(d));
  }

  /** Whatever `to_python` accepts from text passes the field's validator. */
  lemma ParsedPassesValidation(s: string)
    requires ToPython(Text(s)).Success?
    ensures Validate(ToPython(Text(s)).value) == None
  {
  }

  // ---------------------------------------------------------------------
  // Rejection: every failure is a ValidationError
  // ---------------------------------------------------------------------

  /** `to_python` fails exactly when the text does not parse, and then only with the field's message. */
  lemma FailureIsValidationError(v: FieldValue)
    ensures ToPython(v).Failure? <==> v.Text? && ParseArguments(v.text).Failure?
    ensures ToPython(v).Failure? ==> ToPython(v).error == ValidationError(ParseErrorMessage)
  {
  }

  lemma {:induction false} BadTokenRejects(ts: seq<string>, j: nat)
    requires j < |ts| && ParseToken(ts[j]).Failure?
    ensures ParseTokens(ts).Failure?
  {
    if j > 0 {
      BadTokenRejects(ts[1..], j - 1);
    }
  }

  lemma {:induction false} ParsedHasKeyword(ts: seq<string>, j: nat, k: Keyword, n: int)
    requires j < |ts| && ParseToken(ts[j]) == Success((k, n)) && ParseTokens(ts).Success?
    ensures HasKeyword(ParseTokens(ts).value, k)
  {
    var ps := ParseTokens(ts).value;
    if j > 0 {
      ParsedHasKeyword(ts[1..], j - 1, k, n);
      assert ps[1..] == ParseTokens(ts[1..]).value;
    }
  }

  lemma {:induction false} SuffixRejects(ts: seq<string>, i: nat)
    requires i <= |ts| && ParseTokens(ts[i..]).Failure?
    ensures ParseTokens(ts).Failure?
    decreases i
  {
    if i > 0 {
      assert ts[1..][i - 1..] == ts[i..];
      SuffixRejects(ts[1..], i - 1);
      RestRejects(ts);
    }
  }

  lemma RestRejects(ts: seq<string>)
    requires ts != [] && ParseTokens(ts[1..]).Failure?
    ensures ParseTokens(ts).Failure?
  {
  }

  lemma RepeatOfFirstRejects(ts: seq<string>, j: nat, k: Keyword, a: int, b: int)
    requires 0 < j < |ts|
    requires ParseToken(ts[0]) == Success((k, a)) && ParseToken(ts[j]) == Success((k, b))
    ensures ParseTokens(ts).Failure?
  {
    assert ts[1..][j - 1] == ts[j];
    if ParseTokens(ts[1..]).Success? {
      ParsedHasKeyword(ts[1..], j - 1, k, b);
    }
  }

  /** Two pieces naming the same keyword make the whole text invalid, as a repeated keyword argument does. */
  lemma RepeatedKeywordRejected(s: string, i: nat, j: nat, k: Keyword, a: int, b: int)
    requires s != "" && i < j < |Split(s)|
    requires ParseToken(Split(s)[i]) == Success((k, a)) && ParseToken(Split(s)[j]) == Success((k, b))
    ensures ToPython(Text(s)) == Failure(ValidationError(ParseErrorMessage))
  {
    RepeatInTokensRejects(Split(s), i, j, k, a, b);
  }

  lemma RepeatInTokensRejects(ts: seq<string>, i: nat, j: nat, k: Keyword, a: int, b: int)
    requires i < j < |ts|
    requires ParseToken(ts[i]) == Success((k, a)) && ParseToken(ts[j]) == Success((k, b))
    ensures ParseTokens(ts).Failure?
  {
    var u := ts[i..];
    assert u[0] == ts[i] && u[j - i] == ts[j];
    RepeatOfFirstRejects(u, j - i, k, a, b);
    SuffixRejects(ts, i);
  }

  /** A piece with a key outside the whitelist makes the whole text invalid. */
  lemma UnknownKeywordRejected(s: string, j: nat, key: string, value: string)
    requires s != "" && j < |Split(s)| && Split(s)[j] == key + "=" + value
    requires '=' !in key && key !in Whitelist
    ensures ToPython(Text(s)) == Failure(ValidationError(ParseErrorMessage))
  {
    WhitelistIsLookup(key);
    var t := Split(s)[j];
    assert t == key + ['='] + value;
    IndexOfConcat(key, '=', value);
    assert t[..|key|] == key;
    BadTokenRejects(Split(s), j);
  }

  /** A piece whose value is not an integer literal makes the whole text invalid. */
  lemma NonIntegerRejected(s: string, j: nat, key: string, value: string)
    requires s != "" && j < |Split(s)| && Split(s)[j] == key + "=" + value
    requires '=' !in key
    requires forall n :: value != IntToString(n)
    requires value != "-0"
    ensures ToPython(Text(s)) == Failure(ValidationError(ParseErrorMessage))
  {
    var t := Split(s)[j];
    assert t == key + ['='] + value;
    IndexOfConcat(key, '=', value);
    assert t[..|key|] == key;
    assert t[|key| + 1..] == value;
    if ParseInt(value).Some? {
      ParseIntIff(value, ParseInt(value).value);
    }
    BadTokenRejects(Split(s), j);
  }

  /** A piece without '=' makes the whole text invalid. */
  lemma MissingEqualsRejected(s: string, j: nat)
    requires s != "" && j < |Split(s)| && '=' !in Split(s)[j]
    ensures ToPython(Text(s)) == Failure(ValidationError(ParseErrorMessage))
  {
    BadTokenRejects(Split(s), j);
  }


  /** Three months and two days, every other attribute 0 or unset. */
  predicate IsExample(d: Duration) {
    && (forall f :: Get(d, f) == (if f == Months then 3 else if f == Days then 2 else 0))
    && NoAbsoluteZero(d)
  }

  /** The documented example: "months=3,days=2" reads as three months and two days, and writes back the same. */
  lemma DocumentedExample(d: Duration, s: string)
    requires IsExample(d) && s == "months=3,days=2"
    ensures Serialize(d) == s
    ensures ToPython(Text(s)) == Success(Delta(d))
  {
    ExampleSerialize(d, s);
    ParseSerialize(d);
    CanonicalFixed(d);
  }

  lemma ExampleSerialize(d: Duration, s: string)
    requires IsExample(d) && s == "months=3,days=2"
    ensures Serialize(d) == s
  {
    SerializeIsFieldItems(d);
    ExampleItems(d);
    JoinPair("months=3", "days=2");
  }

  lemma JoinPair(a: string, b: string)
    ensures Join([a, b]) == a + "," + b
  {
    assert [a, b][1..] == [b];
  }

  lemma ExampleItems(d: Duration)
    requires IsExample(d)
    ensures FieldItems(AsWritten, d, AllFields) == ["months=3", "days=2"]
  {
    var tail := AllFields[3..];
    ExampleTail(d, tail);
    ExampleNames();
    ItemCons(d, Days, tail, 2, "days=2", []);
    ItemCons(d, Months, [Days] + tail, 3, "months=3", ["days=2"]);
    FieldItemsCons(AsWritten, d, Years, [Months] + ([Days] + tail));
    assert [Years] + ([Months] + ([Days] + tail)) == AllFields;
  }

  lemma ExampleNames()
    ensures Name(Days) + "=" + IntToString(2) == "days=2"
    ensures Name(Months) + "=" + IntToString(3) == "months=3"
  {
    assert IntToString(2) == "2" && IntToString(3) == "3";
  }

  lemma ItemCons(d: Duration, f: Field, fs: seq<Field>, n: int, item: string, rest: seq<string>)
    requires Get(d, f) == n && n != 0 && item == Name(f) + "=" + IntToString(n)
    requires FieldItems(AsWritten, d, fs) == rest
    ensures FieldItems(AsWritten, d, [f] + fs) == [item] + rest
  {
    FieldItemsCons(AsWritten, d, f, fs);
  }

  lemma ExampleTail(d: Duration, tail: seq<Field>)
    requires IsExample(d) && tail == AllFields[3..]
    ensures FieldItems(AsWritten, d, tail) == []
  {
    forall f | f in tail ensures Get(d, f) == 0 {
      var k :| 0 <= k < |tail| && tail[k] == f;
      IndexAt(k + 3);
      assert f != Months && f != Days;
    }
    FieldItemsEmpty(AsWritten, d, tail);
  }

  /** An unknown keyword is refused: "foo=1" is not a duration. */
  lemma UnknownKeywordExample()
    ensures ToPython(Text("foo=1")) == Failure(ValidationError(ParseErrorMessage))
  {
    assert ',' !in "foo=1";
    assert "foo=1" == "foo" + "=" + "1";
    UnknownKeywordRejected("foo=1", 0, "foo", "1");
  }

  /**
   * "At midnight", `hour=0` and `minute=0`, is written as the empty text,
   * which reads back as the zero duration: the two attributes are lost. The
   * corrected writer's text reads back as the duration written.
   */
  lemma MidnightLost(d: Duration)
    requires d == Zero.(hour := Some(0), minute := Some(0))
    ensures Serialize(d) == ""
    ensures ToPython(GetPrepValue(Delta(d))) == Success(Delta(Zero)) && d != Zero
    ensures ToPython(Text(CorrectedSerialize(d))) == Success(Delta(d))
  {
    assert Canonical(d) == Zero;
    SerializeEmptyIffZero(d);
    RoundTrip(d);
    CorrectedRoundTrip(d);
  }
}
