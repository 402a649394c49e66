/**
  * The storage form of a person and its conversion back into a Person:
  * required fields checked one by one in a fixed order (each text field
  * trimmed first), then the tag, special-date and meeting lists, where null
  * entries are skipped, and the two event lists sorted latest first.
  */
module JsonPersons {
  import opened Wrappers
  import opened Text
  import opened Calendar
  import opened Events
  import opened EventOrder
  import opened Debts
  import opened Persons
  import opened JsonEvents
  import opened RecurringDates

  /**
    * The checks and conversions of the person's value classes, which this
    * model does not define: Name.isValidName, Phone.isValidPhone,
    * Email.isValidEmail, Birthday.isValidBirthday, Goal.isValidGoal,
    * Goal.parseFrequency of the lower-cased text, Address.isValidAddress,
    * whether JsonAdaptedPicture.toModelType succeeds, BigDecimal's parser
    * (Null for a NumberFormatException) and Tag.isValidTagName.
    */
  datatype Validators = Validators(
    isValidName: string -> bool,
    isValidPhone: string -> bool,
    isValidEmail: string -> bool,
    isValidBirthday: Date -> bool,
    isValidGoal: string -> bool,
    parseGoal: string -> string,
    isValidAddress: string -> bool,
    isValidPicture: string -> bool,
    parseDecimal: string -> Nullable<Decimal>,
    isValidTagName: string -> bool)

  datatype Field = NameField | PhoneField | EmailField | BirthdayField | GoalField | AddressField | PictureField | DebtField

  datatype ListKind = SpecialDates | Meetings

  /** The IllegalValueException a conversion throws, by cause. */
  datatype PersonError =
    | MissingField(field: Field)
    | InvalidField(field: Field)
    | InvalidTag
    | EventError(cause: DecodeError)
    | EventBeforeBirthday(list: ListKind)

  datatype JsonPerson = JsonPerson(
    name: Nullable<string>,
    phone: Nullable<string>,
    email: Nullable<string>,
    birthday: Nullable<Date>,
    goal: Nullable<string>,
    address: Nullable<string>,
    picture: Nullable<string>,
    debt: Nullable<string>,
    tagged: seq<Nullable<string>>,
    dates: seq<Nullable<JsonEvent>>,
    meetings: seq<Nullable<JsonEvent>>)

  function ListOrEmpty<T>(xs: Nullable<seq<T>>): seq<T> {
    if xs.Present? then xs.value else []
  }

  /** The Jackson constructor: the fields as given, and a null list as an empty one. */
  function NewJsonPerson(
    name: Nullable<string>, phone: Nullable<string>, email: Nullable<string>, birthday: Nullable<Date>,
    goal: Nullable<string>, address: Nullable<string>, picture: Nullable<string>, debt: Nullable<string>,
    tagged: Nullable<seq<Nullable<string>>>, dates: Nullable<seq<Nullable<JsonEvent>>>,
    meetings: Nullable<seq<Nullable<JsonEvent>>>): (j: JsonPerson)
    ensures j.name == name && j.phone == phone && j.email == email && j.birthday == birthday
    ensures j.goal == goal && j.address == address && j.picture == picture && j.debt == debt
    ensures tagged == Null ==> j.tagged == []
    ensures dates == Null ==> j.dates == []
    ensures meetings == Null ==> j.meetings == []
    ensures tagged.Present? ==> j.tagged == tagged.value
    ensures dates.Present? ==> j.dates == dates.value
    ensures meetings.Present? ==> j.meetings == meetings.value
  {
    JsonPerson(name, phone, email, birthday, goal, address, picture, debt,
      ListOrEmpty(tagged), ListOrEmpty(dates), ListOrEmpty(meetings))
  }

  /** Every stored date is a calendar date (LocalDate admits no other). */
  predicate WellFormedEntries(entries: seq<Nullable<JsonEvent>>) {
    forall i :: 0 <= i < |entries| && entries[i].Present? ==> ValidDate(entries[i].value.date)
  }

  predicate WellFormed(j: JsonPerson) {
    && (j.birthday.Present? ==> ValidDate(j.birthday.value))
    && WellFormedEntries(j.dates)
    && WellFormedEntries(j.meetings)
  }

  /** The present entries of a list, in order. */
  function NonNull<T>(xs: seq<Nullable<T>>): seq<T> {
    if xs == [] then []
    else NonNull(xs[..|xs| - 1]) + (if xs[|xs| - 1].Present? then [xs[|xs| - 1].value] else [])
  }

  // ---------------------------------------------------------------- tags

  /** tagsToModelType, entry by entry: the first invalid tag name fails the list. */
  function DecodeTags(tagged: seq<Nullable<string>>, v: Validators): Result<set<string>, PersonError> {
    if tagged == [] then Ok({})
    else
      match DecodeTags(tagged[..|tagged| - 1], v)
      case Err(e) => Err(e)
      case Ok(tags) =>
        match tagged[|tagged| - 1]
        case Null => Ok(tags)
        case Present(t) => if v.isValidTagName(t) then Ok(tags + {t}) else Err(InvalidTag)
  }

  /** The tag names present in the list. */
  ghost function PresentTags(tagged: seq<Nullable<string>>): set<string> {
    set i | 0 <= i < |tagged| && tagged[i].Present? :: tagged[i].value
  }

  /**
    * The tags decode exactly when every non-null entry is a valid tag name;
    * nulls are skipped and duplicates collapse into one set element.
    */
  lemma {:induction false} DecodeTagsMeaning(tagged: seq<Nullable<string>>, v: Validators)
    ensures DecodeTags(tagged, v).Ok? <==>
      forall i :: 0 <= i < |tagged| && tagged[i].Present? ==> v.isValidTagName(tagged[i].value)
    ensures DecodeTags(tagged, v).Ok? ==> DecodeTags(tagged, v).value == PresentTags(tagged)
  {
    if tagged != [] {
      var n := |tagged| - 1;
      var init := tagged[..n];
      DecodeTagsMeaning(init, v);
      assert forall i :: 0 <= i < n ==> init[i] == tagged[i];
      if DecodeTags(init, v).Ok? && tagged[n].Present? {
        assert PresentTags(tagged) == PresentTags(init) + {tagged[n].value};
      } else if DecodeTags(init, v).Ok? {
        assert PresentTags(tagged) == PresentTags(init);
      }
    }
  }

  /** Once a prefix of the list fails, the whole list fails the same way. */
  lemma {:induction false} DecodeTagsErrorSticks(tagged: seq<Nullable<string>>, i: nat, v: Validators)
    requires i <= |tagged| && DecodeTags(tagged[..i], v).Err?
    ensures DecodeTags(tagged, v) == DecodeTags(tagged[..i], v)
    decreases |tagged| - i
  {
    if i < |tagged| {
      assert tagged[..i + 1][..i] == tagged[..i];
      DecodeTagsErrorSticks(tagged, i + 1, v);
    } else {
      assert tagged[..i] == tagged;
    }
  }

  /** tagsToModelType: a loop that skips nulls, collects tag names and ends in a set. */
  method TagsToModelType(tagged: seq<Nullable<string>>, v: Validators) returns (r: Result<set<string>, PersonError>)
    ensures r == DecodeTags(tagged, v)
    ensures r.Ok? ==> r.value == PresentTags(tagged)
  {
    DecodeTagsMeaning(tagged, v);
    var personTags: seq<string> := [];
    assert (set t | t in personTags) == {};
    var i := 0;
    while i < |tagged|
      invariant 0 <= i <= |tagged|
      invariant DecodeTags(tagged[..i], v) == Ok(set t | t in personTags)
    {
      assert tagged[..i + 1][..i] == tagged[..i];
      if tagged[i].Present? {
        var tag := tagged[i].value;
        if !v.isValidTagName(tag) {
          DecodeTagsErrorSticks(tagged, i + 1, v);
          return Err(InvalidTag);
        }
        assert (set t | t in personTags + [tag]) == (set t | t in personTags) + {tag};
        personTags := personTags + [tag];
      }
      i := i + 1;
    }
    assert tagged[..i] == tagged;
    r := Ok(set t | t in personTags);
  }

  // ---------------------------------------------------------------- events

  /** The event a record with a kind decodes to resolves, on `today`, to a date before `birthday`. */
  predicate ResolvesBeforeBirthday(j: JsonEvent, birthday: Date, today: Date)
    requires ValidDate(j.date) && ValidDate(birthday) && ValidDate(today) && j.recurrenceType != Null
  {
    DecodedEventIsValid(j);
    Before(Events.GetDate(JsonEvents.ToModelType(j).value, today), birthday)
  }

  /**
    * One special date or meeting: decoded, then rejected when its date
    * (for a recurring entry, the occurrence resolved at `today`) lies
    * strictly before the birthday.
    */
  function DecodeEntry(j: JsonEvent, birthday: Date, today: Date, list: ListKind): (r: Result<Event, PersonError>)
    requires ValidDate(j.date) && ValidDate(birthday) && ValidDate(today)
    ensures r.Ok? ==> ValidEvent(r.value) && JsonEvents.ToModelType(j) == Ok(r.value)
    ensures r.Ok? ==> !Before(Events.GetDate(r.value, today), birthday)
    ensures r.Err? ==> (r.error == EventBeforeBirthday(list) || r.error == EventError(NullRecurrenceType))
    ensures r == Err(EventError(NullRecurrenceType)) <==> j.recurrenceType == Null
    ensures r == Err(EventBeforeBirthday(list)) <==>
      j.recurrenceType != Null && ResolvesBeforeBirthday(j, birthday, today)
    ensures r.Ok? <==> j.recurrenceType != Null && !ResolvesBeforeBirthday(j, birthday, today)
  {
    match JsonEvents.ToModelType(j)
    case Err(e) => Err(EventError(e))
    case Ok(e) =>
      DecodedEventIsValid(j);
      if Before(Events.GetDate(e, today), birthday) then Err(EventBeforeBirthday(list)) else Ok(e)
  }

  /** datesToModelType / meetingsToModelType, entry by entry: the first failing entry fails the list. */
  function DecodeEvents(entries: seq<Nullable<JsonEvent>>, birthday: Date, today: Date, list: ListKind)
    : (r: Result<seq<Event>, PersonError>)
    requires WellFormedEntries(entries) && ValidDate(birthday) && ValidDate(today)
    ensures r.Ok? ==> AllValid(r.value)
    ensures r.Ok? ==> forall k :: 0 <= k < |r.value| ==> !Before(Events.GetDate(r.value[k], today), birthday)
  {
    if entries == [] then Ok([])
    else
      var n := |entries| - 1;
      match DecodeEvents(entries[..n], birthday, today, list)
      case Err(e) => Err(e)
      case Ok(events) =>
        match entries[n]
        case Null => Ok(events)
        case Present(j) =>
          match DecodeEntry(j, birthday, today, list)
          case Err(e) => Err(e)
          case Ok(e) => Ok(events + [e])
  }

  /** Once a prefix of the list fails, the whole list fails the same way. */
  lemma {:induction false} DecodeEventsErrorSticks(
    entries: seq<Nullable<JsonEvent>>, i: nat, birthday: Date, today: Date, list: ListKind)
    requires WellFormedEntries(entries) && ValidDate(birthday) && ValidDate(today)
    requires i <= |entries|
    requires WellFormedEntries(entries[..i]) && DecodeEvents(entries[..i], birthday, today, list).Err?
    ensures DecodeEvents(entries, birthday, today, list) == DecodeEvents(entries[..i], birthday, today, list)
    decreases |entries| - i
  {
    if i < |entries| {
      assert entries[..i + 1][..i] == entries[..i];
      DecodeEventsErrorSticks(entries, i + 1, birthday, today, list);
    } else {
      assert entries[..i] == entries;
    }
  }

  /**
    * The list decodes exactly when every non-null entry decodes and is not
    * dated before the birthday; the decoded list holds the present entries'
    * events, in order. When it fails, the error is that of the first failing
    * entry.
    */
  lemma {:induction false} DecodeEventsMeaning(
    entries: seq<Nullable<JsonEvent>>, birthday: Date, today: Date, list: ListKind)
    requires WellFormedEntries(entries) && ValidDate(birthday) && ValidDate(today)
    ensures DecodeEvents(entries, birthday, today, list).Ok? <==>
      forall i :: 0 <= i < |entries| && entries[i].Present? ==>
        DecodeEntry(entries[i].value, birthday, today, list).Ok?
    ensures var r := DecodeEvents(entries, birthday, today, list);
      r.Ok? ==>
        && |r.value| == |NonNull(entries)|
        && forall k :: 0 <= k < |r.value| ==> JsonEvents.ToModelType(NonNull(entries)[k]) == Ok(r.value[k])
    ensures var r := DecodeEvents(entries, birthday, today, list);
      r.Err? ==> exists i :: (FirstFailure(entries, birthday, today, list, i) &&
        DecodeEntry(entries[i].value, birthday, today, list) == Err(r.error))
  {
    if entries != [] {
      var n := |entries| - 1;
      var init := entries[..n];
      assert forall i :: 0 <= i < n ==> init[i] == entries[i];
      DecodeEventsMeaning(init, birthday, today, list);
      var r0 := DecodeEvents(init, birthday, today, list);
      if r0.Err? {
        var i :| FirstFailure(init, birthday, today, list, i) &&
          DecodeEntry(init[i].value, birthday, today, list) == Err(r0.error);
        assert FirstFailure(entries, birthday, today, list, i);
      } else if entries[n].Present? {
        var d := DecodeEntry(entries[n].value, birthday, today, list);
        if d.Err? {
          assert FirstFailure(entries, birthday, today, list, n);
        } else {
          assert NonNull(entries) == NonNull(init) + [entries[n].value];
        }
      } else {
        assert NonNull(entries) == NonNull(init);
      }
    }
  }

  /** Entry i is present and fails, and every present entry before it succeeds. */
  predicate FirstFailure(entries: seq<Nullable<JsonEvent>>, birthday: Date, today: Date, list: ListKind, i: int)
    requires WellFormedEntries(entries) && ValidDate(birthday) && ValidDate(today)
  {
    && 0 <= i < |entries| && entries[i].Present?
    && DecodeEntry(entries[i].value, birthday, today, list).Err?
    && forall m :: 0 <= m < i && entries[m].Present? ==> DecodeEntry(entries[m].value, birthday, today, list).Ok?
  }

  /** Inserting a null entry keeps a list well formed. */
  lemma NullEntryWellFormed(a: seq<Nullable<JsonEvent>>, b: seq<Nullable<JsonEvent>>)
    requires WellFormedEntries(a + b)
    ensures WellFormedEntries(a + [Null] + b)
  {
    var withNull := a + [Null] + b;
    assert forall i :: 0 <= i < |withNull| && i != |a| ==>
      withNull[i] == (a + b)[if i < |a| then i else i - 1];
  }

  /** Two lists ending in the same entry decode alike when their prefixes do. */
  lemma SameLastEntry(x: seq<Nullable<JsonEvent>>, y: seq<Nullable<JsonEvent>>, birthday: Date, today: Date, list: ListKind)
    requires WellFormedEntries(x) && WellFormedEntries(y) && ValidDate(birthday) && ValidDate(today)
    requires |x| > 0 && |y| > 0 && x[|x| - 1] == y[|y| - 1]
    requires WellFormedEntries(x[..|x| - 1]) && WellFormedEntries(y[..|y| - 1])
    requires DecodeEvents(x[..|x| - 1], birthday, today, list) == DecodeEvents(y[..|y| - 1], birthday, today, list)
    ensures DecodeEvents(x, birthday, today, list) == DecodeEvents(y, birthday, today, list)
  {
  }

  /** A null entry anywhere in the list is skipped: removing it changes nothing. */
  lemma {:induction false} NullEntriesSkipped(
    a: seq<Nullable<JsonEvent>>, b: seq<Nullable<JsonEvent>>, birthday: Date, today: Date, list: ListKind)
    requires WellFormedEntries(a + b) && ValidDate(birthday) && ValidDate(today)
    ensures WellFormedEntries(a + [Null] + b)
    ensures DecodeEvents(a + [Null] + b, birthday, today, list) == DecodeEvents(a + b, birthday, today, list)
    decreases |b|
  {
    var withNull := a + [Null] + b;
    NullEntryWellFormed(a, b);
    if b == [] {
      assert withNull[..|a|] == a && a + b == a;
    } else {
      var n := |b| - 1;
      assert (a + b)[..|a| + n] == a + b[..n];
      assert withNull[..|a| + 1 + n] == a + [Null] + b[..n];
      assert WellFormedEntries(a + b[..n]);
      NullEntriesSkipped(a, b[..n], birthday, today, list);
      SameLastEntry(withNull, a + b, birthday, today, list);
    }
  }

  /** A null tag entry anywhere in the list is skipped: removing it changes nothing. */
  lemma {:induction false} NullTagsSkipped(a: seq<Nullable<string>>, b: seq<Nullable<string>>, v: Validators)
    ensures DecodeTags(a + [Null] + b, v) == DecodeTags(a + b, v)
    decreases |b|
  {
    var withNull := a + [Null] + b;
    if b == [] {
      assert withNull[..|a|] == a && a + b == a;
    } else {
      var n := |b| - 1;
      assert (a + b)[..|a| + n] == a + b[..n];
      assert withNull[..|a| + 1 + n] == a + [Null] + b[..n];
      NullTagsSkipped(a, b[..n], v);
    }
  }

  /** An event dated on the birthday itself is accepted: only strictly earlier dates are refused. */
  lemma EventOnBirthdayAccepted(j: JsonEvent, birthday: Date, today: Date, list: ListKind)
    requires ValidDate(j.date) && ValidDate(birthday) && ValidDate(today)
    requires JsonEvents.ToModelType(j).Ok? && Events.GetDate(JsonEvents.ToModelType(j).value, today) == birthday
    ensures DecodeEntry(j, birthday, today, list) == Ok(JsonEvents.ToModelType(j).value)
  {
  }

  /**
    * A recurring entry is checked at the date the resolver as written gives
    * for `today`: a monthly entry seeded on 2021-01-01, read on 2021-01-31
    * by a person born on 2021-01-30, resolves to 2021-01-29 and is refused.
    */
  lemma RecurringEntryCheckedAsResolved(list: ListKind)
    ensures DecodeEntry(JsonEvent(Date(2021, 1, 1), Null, "x", Present(Monthly)),
      Date(2021, 1, 30), Date(2021, 1, 31), list) == Err(EventBeforeBirthday(list))
  {
    RecurringDateCanPrecedeNow();
    assert JsonEvents.ToModelType(JsonEvent(Date(2021, 1, 1), Null, "x", Present(Monthly)))
      == Ok(Recurring(RecurringDate(Date(2021, 1, 1), Monthly), Null, "x"));
  }

  /**
    * datesToModelType / meetingsToModelType: a loop that skips nulls,
    * decodes each entry, stops at the first one dated before the birthday and
    * collects the rest in order.
    */
  method EventsToModelType(entries: seq<Nullable<JsonEvent>>, birthday: Date, today: Date, list: ListKind)
    returns (r: Result<seq<Event>, PersonError>)
    requires WellFormedEntries(entries) && ValidDate(birthday) && ValidDate(today)
    ensures r == DecodeEvents(entries, birthday, today, list)
    ensures r.Ok? ==> AllValid(r.value)
    ensures r.Ok? ==> forall k :: 0 <= k < |r.value| ==> !Before(Events.GetDate(r.value[k], today), birthday)
  {
    var modelEvents: seq<Event> := [];
    var i := 0;
    while i < |entries|
      invariant 0 <= i <= |entries|
      invariant WellFormedEntries(entries[..i])
      invariant DecodeEvents(entries[..i], birthday, today, list) == Ok(modelEvents)
      invariant AllValid(modelEvents)
      invariant forall k :: 0 <= k < |modelEvents| ==> !Before(Events.GetDate(modelEvents[k], today), birthday)
    {
      assert entries[..i + 1][..i] == entries[..i];
      assert WellFormedEntries(entries[..i + 1]);
      if entries[i].Present? {
        var j := entries[i].value;
        var decoded := JsonEvents.ToModelType(j);
        if decoded.Err? {
          DecodeEventsErrorSticks(entries, i + 1, birthday, today, list);
          return Err(EventError(decoded.error));
        }
        var model := decoded.value;
        DecodedEventIsValid(j);
        if Before(Events.GetDate(model, today), birthday) {
          DecodeEventsErrorSticks(entries, i + 1, birthday, today, list);
          return Err(EventBeforeBirthday(list));
        }
        modelEvents := modelEvents + [model];
      }
      i := i + 1;
    }
    assert entries[..i] == entries;
    r := Ok(modelEvents);
  }

  // ---------------------------------------------------------------- the person

  /** A required text field: missing when null, invalid when its trimmed text fails the check. */
  function TextField(value: Nullable<string>, isValid: string -> bool, field: Field): Nullable<PersonError> {
    if value == Null then Present(MissingField(field))
    else if !isValid(Trim(value.value)) then Present(InvalidField(field))
    else Null
  }

  /** The debt's trimmed text is a number BigDecimal accepts and Debt.isValidDebt allows. */
  predicate DebtTextIsValid(v: Validators, text: string) {
    IsValidDebt(v.parseDecimal(text))
  }

  /** The error a single field raises on its own, or Null when it passes. */
  function FieldStatus(j: JsonPerson, v: Validators, field: Field): Nullable<PersonError> {
    match field
    case NameField => TextField(j.name, v.isValidName, NameField)
    case PhoneField => TextField(j.phone, v.isValidPhone, PhoneField)
    case EmailField => TextField(j.email, v.isValidEmail, EmailField)
    case BirthdayField =>
      if j.birthday == Null then Present(MissingField(BirthdayField))
      else if !v.isValidBirthday(j.birthday.value) then Present(InvalidField(BirthdayField))
      else Null
    case GoalField => TextField(j.goal, v.isValidGoal, GoalField)
    case AddressField => TextField(j.address, v.isValidAddress, AddressField)
    case PictureField =>
      if j.picture.Present? && !v.isValidPicture(j.picture.value) then Present(InvalidField(PictureField))
      else Null
    case DebtField =>
      if j.debt == Null then Present(MissingField(DebtField))
      else if !DebtTextIsValid(v, Trim(j.debt.value)) then Present(InvalidField(DebtField))
      else Null
  }

  /** The outcome of each field check, in the order toModelType performs them. */
  function FieldStatuses(j: JsonPerson, v: Validators): (st: seq<Nullable<PersonError>>)
    ensures |st| == 8
  {
    [ FieldStatus(j, v, NameField), FieldStatus(j, v, PhoneField), FieldStatus(j, v, EmailField),
      FieldStatus(j, v, BirthdayField), FieldStatus(j, v, GoalField), FieldStatus(j, v, AddressField),
      FieldStatus(j, v, PictureField), FieldStatus(j, v, DebtField) ]
  }

  /** The first error among the outcomes from position k on, or Null. */
  function FirstError(st: seq<Nullable<PersonError>>, k: nat): Nullable<PersonError>
    requires k <= |st|
    decreases |st| - k
  {
    if k == |st| then Null
    else if st[k].Present? then st[k]
    else FirstError(st, k + 1)
  }

  /** There is no error from position k on exactly when FirstError finds none. */
  lemma {:induction false} FirstErrorMeaning(st: seq<Nullable<PersonError>>, k: nat)
    requires k <= |st|
    ensures FirstError(st, k) == Null <==> forall m :: k <= m < |st| ==> st[m] == Null
    decreases |st| - k
  {
    if k < |st| {
      FirstErrorMeaning(st, k + 1);
    }
  }

  /** Outcomes without an error are skipped. */
  lemma {:induction false} SkipPassing(st: seq<Nullable<PersonError>>, k: nat, k2: nat)
    requires k <= k2 <= |st|
    requires forall m :: k <= m < k2 ==> st[m] == Null
    ensures FirstError(st, k) == FirstError(st, k2)
    decreases k2 - k
  {
    if k < k2 {
      SkipPassing(st, k + 1, k2);
    }
  }

  /**
    * toModelType: the fields in order, each trimmed and checked; then the
    * tags, the special dates and the meetings; the two event lists sorted
    * latest first at `today`, the day the clock gives.
    */
  function DecodePerson(j: JsonPerson, v: Validators, today: Date): Result<Person, PersonError>
    requires WellFormed(j) && ValidDate(today)
  {
    var st := FieldStatuses(j, v);
    match FirstError(st, 0)
    case Present(e) => Err(e)
    case Null =>
      FirstErrorMeaning(st, 0);
      FieldsPassStatuses(j, v);
      DecodeLists(j, v, today)
  }

  /** The rest of toModelType once every field has passed: the three lists, then the sorts. */
  function DecodeLists(j: JsonPerson, v: Validators, today: Date): Result<Person, PersonError>
    requires WellFormed(j) && ValidDate(today) && FieldsPass(j, v)
  {
    PassingFieldsPresent(j, v);
    var birthday := j.birthday.value;
    var debt := FromString(v.parseDecimal(Trim(j.debt.value))).value;
    match DecodeTags(j.tagged, v)
    case Err(e) => Err(e)
    case Ok(tags) =>
      match DecodeEvents(j.dates, birthday, today, SpecialDates)
      case Err(e) => Err(e)
      case Ok(dates) =>
        match DecodeEvents(j.meetings, birthday, today, Meetings)
        case Err(e) => Err(e)
        case Ok(meetings) =>
          Ok(Person(Trim(j.name.value), Trim(j.phone.value), Trim(j.email.value), birthday,
            v.parseGoal(Trim(j.goal.value)), Trim(j.address.value), j.picture, debt, tags,
            SortDescending(dates, today), SortDescending(meetings, today)))
  }

  /** Once every field has passed, decoding the person is decoding the lists. */
  lemma FieldsPassDecodesLists(j: JsonPerson, v: Validators, today: Date)
    requires WellFormed(j) && ValidDate(today) && FieldsPass(j, v)
    ensures DecodePerson(j, v, today) == DecodeLists(j, v, today)
  {
    FieldsPassStatuses(j, v);
    FirstErrorMeaning(FieldStatuses(j, v), 0);
  }

  /**
    * The first field, in the order name, phone, email, birthday, goal,
    * address, picture, debt, that fails on its own decides the error; the
    * lists are looked at only once every field has passed.
    */
  lemma FirstBadFieldReported(j: JsonPerson, v: Validators, today: Date, k: nat)
    requires WellFormed(j) && ValidDate(today)
    requires k < 8
    requires forall m :: 0 <= m < k ==> FieldStatuses(j, v)[m] == Null
    requires FieldStatuses(j, v)[k].Present?
    ensures DecodePerson(j, v, today) == Err(FieldStatuses(j, v)[k].value)
  {
    var st := FieldStatuses(j, v);
    SkipPassing(st, 0, k);
  }

  /** Every field passes. */
  predicate FieldsPass(j: JsonPerson, v: Validators) {
    && FieldStatus(j, v, NameField) == Null && FieldStatus(j, v, PhoneField) == Null
    && FieldStatus(j, v, EmailField) == Null && FieldStatus(j, v, BirthdayField) == Null
    && FieldStatus(j, v, GoalField) == Null && FieldStatus(j, v, AddressField) == Null
    && FieldStatus(j, v, PictureField) == Null && FieldStatus(j, v, DebtField) == Null
  }

  /** Every field passes exactly when no outcome in FieldStatuses is an error. */
  lemma FieldsPassStatuses(j: JsonPerson, v: Validators)
    ensures FieldsPass(j, v) <==> forall m :: 0 <= m < |FieldStatuses(j, v)| ==> FieldStatuses(j, v)[m] == Null
  {
    var st := FieldStatuses(j, v);
    assert st[0] == FieldStatus(j, v, NameField) && st[1] == FieldStatus(j, v, PhoneField);
    assert st[2] == FieldStatus(j, v, EmailField) && st[3] == FieldStatus(j, v, BirthdayField);
    assert st[4] == FieldStatus(j, v, GoalField) && st[5] == FieldStatus(j, v, AddressField);
    assert st[6] == FieldStatus(j, v, PictureField) && st[7] == FieldStatus(j, v, DebtField);
    if FieldsPass(j, v) {
      forall m | 0 <= m < |st| ensures st[m] == Null {
        if m < 4 {
          assert m == 0 || m == 1 || m == 2 || m == 3;
        } else {
          assert m == 4 || m == 5 || m == 6 || m == 7;
        }
      }
    }
  }

  /** What a single field must satisfy to pass. */
  predicate FieldCondition(j: JsonPerson, v: Validators, field: Field) {
    match field
    case NameField => j.name.Present? && v.isValidName(Trim(j.name.value))
    case PhoneField => j.phone.Present? && v.isValidPhone(Trim(j.phone.value))
    case EmailField => j.email.Present? && v.isValidEmail(Trim(j.email.value))
    case BirthdayField => j.birthday.Present? && v.isValidBirthday(j.birthday.value)
    case GoalField => j.goal.Present? && v.isValidGoal(Trim(j.goal.value))
    case AddressField => j.address.Present? && v.isValidAddress(Trim(j.address.value))
    case PictureField => j.picture.Present? ==> v.isValidPicture(j.picture.value)
    case DebtField => j.debt.Present? && IsValidDebt(v.parseDecimal(Trim(j.debt.value)))
  }

  /** A field passes exactly when it meets its condition; otherwise its error names it. */
  lemma FieldStatusMeaning(j: JsonPerson, v: Validators, field: Field)
    ensures FieldStatus(j, v, field) == Null <==> FieldCondition(j, v, field)
    ensures FieldStatus(j, v, field) != Null ==>
      FieldStatus(j, v, field) in {Present(MissingField(field)), Present(InvalidField(field))}
  {
  }

  /**
    * Every field passes exactly when each meets its condition: the required
    * fields present and valid after trimming, the picture valid when present.
    */
  lemma FieldsPassMeaning(j: JsonPerson, v: Validators)
    ensures FieldsPass(j, v) <==>
      && FieldCondition(j, v, NameField) && FieldCondition(j, v, PhoneField)
      && FieldCondition(j, v, EmailField) && FieldCondition(j, v, BirthdayField)
      && FieldCondition(j, v, GoalField) && FieldCondition(j, v, AddressField)
      && FieldCondition(j, v, PictureField) && FieldCondition(j, v, DebtField)
  {
    FieldStatusMeaning(j, v, NameField);
    FieldStatusMeaning(j, v, PhoneField);
    FieldStatusMeaning(j, v, EmailField);
    FieldStatusMeaning(j, v, BirthdayField);
    FieldStatusMeaning(j, v, GoalField);
    FieldStatusMeaning(j, v, AddressField);
    FieldStatusMeaning(j, v, PictureField);
    FieldStatusMeaning(j, v, DebtField);
  }

  /** Once every field has passed, each required field is present and the debt's text is a valid debt. */
  lemma PassingFieldsPresent(j: JsonPerson, v: Validators)
    requires FieldsPass(j, v)
    ensures && j.name.Present? && j.phone.Present? && j.email.Present? && j.birthday.Present?
            && j.goal.Present? && j.address.Present? && j.debt.Present?
    ensures j.debt.Present? && IsValidDebt(v.parseDecimal(Trim(j.debt.value)))
  {
    FieldsPassMeaning(j, v);
  }

  /**
    * With every field passing, the person decodes exactly when the tags,
    * the special dates and the meetings do, and the first of the three to
    * fail gives the error.
    */
  lemma ListsCheckedAfterFields(j: JsonPerson, v: Validators, today: Date)
    requires WellFormed(j) && ValidDate(today) && FieldsPass(j, v)
    ensures j.birthday.Present? && ValidDate(j.birthday.value)
    ensures var b := j.birthday.value;
      var r := DecodePerson(j, v, today);
      && (r.Ok? <==>
            && DecodeTags(j.tagged, v).Ok?
            && DecodeEvents(j.dates, b, today, SpecialDates).Ok?
            && DecodeEvents(j.meetings, b, today, Meetings).Ok?)
      && (DecodeTags(j.tagged, v).Err? ==> r == Err(DecodeTags(j.tagged, v).error))
      && (DecodeTags(j.tagged, v).Ok? && DecodeEvents(j.dates, b, today, SpecialDates).Err? ==>
            r == Err(DecodeEvents(j.dates, b, today, SpecialDates).error))
  {
    FirstErrorMeaning(FieldStatuses(j, v), 0);
    FieldsPassStatuses(j, v);
    FieldsPassMeaning(j, v);
  }

  /** A person decodes only when every field passes. */
  lemma DecodedFieldsPass(j: JsonPerson, v: Validators, today: Date)
    requires WellFormed(j) && ValidDate(today) && DecodePerson(j, v, today).Ok?
    ensures FieldsPass(j, v)
  {
    FirstErrorMeaning(FieldStatuses(j, v), 0);
    FieldsPassStatuses(j, v);
  }

  /**
    * The fields of a decoded person: the trimmed text fields, the stored
    * birthday and picture, the goal parsed from the trimmed text, the debt
    * parsed from the trimmed text, and the set of tag names present in the
    * list.
    */
  lemma DecodedPersonFields(j: JsonPerson, v: Validators, today: Date)
    requires WellFormed(j) && ValidDate(today) && DecodePerson(j, v, today).Ok?
    ensures var p := DecodePerson(j, v, today).value;
      && j.name.Present? && p.name == Trim(j.name.value) && v.isValidName(p.name)
      && j.phone.Present? && p.phone == Trim(j.phone.value) && v.isValidPhone(p.phone)
      && j.email.Present? && p.email == Trim(j.email.value) && v.isValidEmail(p.email)
      && j.birthday == Present(p.birthday) && v.isValidBirthday(p.birthday)
      && j.goal.Present? && p.goal == v.parseGoal(Trim(j.goal.value)) && v.isValidGoal(Trim(j.goal.value))
      && j.address.Present? && p.address == Trim(j.address.value) && v.isValidAddress(p.address)
      && p.picture == j.picture
      && j.debt.Present? && v.parseDecimal(Trim(j.debt.value)) == Present(p.debt.value)
      && IsValidDebt(Present(p.debt.value))
      && p.tags == PresentTags(j.tagged)
  {
    DecodedFieldsPass(j, v, today);
    FieldsPassMeaning(j, v);
    DecodeTagsMeaning(j.tagged, v);
  }

  /**
    * The event lists of a decoded person: each a permutation of its decoded
    * entries, sorted latest first, stably (events of one date keep their
    * order), and none dated before the birthday.
    */
  lemma DecodedPersonEvents(j: JsonPerson, v: Validators, today: Date)
    requires WellFormed(j) && ValidDate(today) && DecodePerson(j, v, today).Ok?
    ensures j.birthday.Present? && ValidDate(j.birthday.value)
    ensures var p := DecodePerson(j, v, today).value;
      && p.birthday == j.birthday.value
      && ValidPerson(p)
      && DecodeEvents(j.dates, p.birthday, today, SpecialDates).Ok?
      && multiset(p.dates) == multiset(DecodeEvents(j.dates, p.birthday, today, SpecialDates).value)
      && Descending(p.dates, today)
      && DecodeEvents(j.meetings, p.birthday, today, Meetings).Ok?
      && multiset(p.meetings) == multiset(DecodeEvents(j.meetings, p.birthday, today, Meetings).value)
      && Descending(p.meetings, today)
    ensures var p := DecodePerson(j, v, today).value;
      && (forall key :: WithKey(p.dates, key, today)
            == WithKey(DecodeEvents(j.dates, p.birthday, today, SpecialDates).value, key, today))
      && (forall key :: WithKey(p.meetings, key, today)
            == WithKey(DecodeEvents(j.meetings, p.birthday, today, Meetings).value, key, today))
    ensures var p := DecodePerson(j, v, today).value;
      && (forall k :: 0 <= k < |p.dates| ==> !Before(Events.GetDate(p.dates[k], today), p.birthday))
      && (forall k :: 0 <= k < |p.meetings| ==> !Before(Events.GetDate(p.meetings[k], today), p.birthday))
  {
    DecodedFieldsPass(j, v, today);
    FieldsPassMeaning(j, v);
    var b := j.birthday.value;
    var dates := DecodeEvents(j.dates, b, today, SpecialDates).value;
    var meetings := DecodeEvents(j.meetings, b, today, Meetings).value;
    var p := DecodePerson(j, v, today).value;
    assert p.dates == SortDescending(dates, today) && p.meetings == SortDescending(meetings, today);
    SortCharacterized(dates, dates, today);
    SortCharacterized(meetings, meetings, today);
    SortedStaysAfterBirthday(dates, b, today);
    SortedStaysAfterBirthday(meetings, b, today);
  }

  /** Sorting keeps every event of the list, so the birthday bound still holds afterwards. */
  lemma SortedStaysAfterBirthday(s: seq<Event>, birthday: Date, today: Date)
    requires AllValid(s) && ValidDate(today)
    requires forall k :: 0 <= k < |s| ==> !Before(Events.GetDate(s[k], today), birthday)
    ensures forall k :: 0 <= k < |SortDescending(s, today)| ==>
      !Before(Events.GetDate(SortDescending(s, today)[k], today), birthday)
  {
    var r := SortDescending(s, today);
    forall k | 0 <= k < |r| ensures !Before(Events.GetDate(r[k], today), birthday) {
      assert r[k] in multiset(r);
      assert r[k] in multiset(s);
      var i :| 0 <= i < |s| && s[i] == r[k];
    }
  }

  /**
    * JsonAdaptedPerson.toModelType, step by step: each field in turn, then
    * the three lists through their loops, then the two sorts.
    */
  method ToModelType(j: JsonPerson, v: Validators, today: Date) returns (r: Result<Person, PersonError>)
    requires WellFormed(j) && ValidDate(today)
    ensures r == DecodePerson(j, v, today)
  {
    var statuses := FieldStatuses(j, v);
    var k := 0;
    while k < |statuses|
      invariant 0 <= k <= |statuses|
      invariant forall m :: 0 <= m < k ==> statuses[m] == Null
    {
      if statuses[k].Present? {
        FirstBadFieldReported(j, v, today, k);
        return Err(statuses[k].value);
      }
      k := k + 1;
    }
    FieldsPassStatuses(j, v);
    FieldsPassDecodesLists(j, v, today);
    r := ListsToModelType(j, v, today);
  }

  /** The second half of toModelType, reached once every field has passed. */
  method ListsToModelType(j: JsonPerson, v: Validators, today: Date) returns (r: Result<Person, PersonError>)
    requires WellFormed(j) && ValidDate(today) && FieldsPass(j, v)
    ensures r == DecodeLists(j, v, today)
  {
    PassingFieldsPresent(j, v);
    var birthday := j.birthday.value;
    var debt := FromString(v.parseDecimal(Trim(j.debt.value))).value;
    var tags := TagsToModelType(j.tagged, v);
    if tags.Err? {
      return Err(tags.error);
    }
    var rawDates := EventsToModelType(j.dates, birthday, today, SpecialDates);
    if rawDates.Err? {
      return Err(rawDates.error);
    }
    var rawMeetings := EventsToModelType(j.meetings, birthday, today, Meetings);
    if rawMeetings.Err? {
      return Err(rawMeetings.error);
    }
    r := Ok(Person(Trim(j.name.value), Trim(j.phone.value), Trim(j.email.value), birthday,
      v.parseGoal(Trim(j.goal.value)), Trim(j.address.value), j.picture, debt, tags.value,
      SortDescending(rawDates.value, today), SortDescending(rawMeetings.value, today)));
  }
}
