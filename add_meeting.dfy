/**
  * The add-meeting command: checks, in order, that the index names a shown
  * person, that the meeting does not predate the person's birthday, that it
  * is not after today and, when it is today, that its time is not after
  * now; then files the meeting into the person's meeting list, which stays
  * stably sorted with the latest meeting first. The clock is read once, as
  * the parameters `today` and `now`.
  */
module AddMeeting {
  import opened Wrappers
  import opened Calendar
  import opened Events
  import opened EventOrder
  import opened Persons

  datatype CommandError = InvalidPersonIndex | DateBeforeBirthday | DateAfterToday | TimeAfterNow

  /** The command: a zero-based index into the shown list and the meeting to add. */
  datatype AddMeetingCommand = AddMeetingCommand(index: nat, meeting: Event)

  /** TimeUtil.afterNow, taken to be a strict comparison with the clock's time; a missing time is never after now. */
  predicate AfterNow(time: Nullable<Time>, now: Time) {
    time.Present? && TimeIsAfter(time.value, now)
  }

  /** DateUtil.afterToday. */
  predicate AfterToday(date: Date, today: Date) {
    Before(today, date)
  }

  /** The groups of `s + [x]` are those of `s`, with `x` last in its own. */
  lemma AppendedGroups(s: seq<Event>, x: Event, today: Date)
    requires AllValid(s) && ValidEvent(x) && ValidDate(today)
    ensures AllValid(s + [x])
    ensures forall k ::
      WithKey(s + [x], k, today) == WithKey(s, k, today) + (if Key(x, today) == k then [x] else [])
  {
    assert AllValid([x]);
    WithKeyAppend(s, [x], Key(x, today), today);
    forall k ensures WithKey(s + [x], k, today)
      == WithKey(s, k, today) + (if Key(x, today) == k then [x] else [])
    {
      WithKeyAppend(s, [x], k, today);
      assert [x][1..] == [];
    }
  }

  /**
    * createEditedPerson: the person with the meeting appended and the list
    * stably re-sorted, latest first. Nothing but the meetings changes; the
    * new list holds the old meetings and the new one, in non-increasing date
    * order, and among meetings of one date the old ones keep their order and
    * the new one comes after them.
    */
  function CreateEditedPerson(personToEdit: Person, meeting: Event, today: Date): (edited: Person)
    requires ValidPerson(personToEdit) && ValidEvent(meeting) && ValidDate(today)
    ensures ValidPerson(edited)
    ensures edited == personToEdit.(meetings := edited.meetings)
    ensures multiset(edited.meetings) == multiset(personToEdit.meetings) + multiset{meeting}
    ensures Descending(edited.meetings, today)
    ensures forall k :: (WithKey(edited.meetings, k, today)
      == WithKey(personToEdit.meetings, k, today) + (if Key(meeting, today) == k then [meeting] else []))
  {
    var appended := personToEdit.meetings + [meeting];
    AppendedGroups(personToEdit.meetings, meeting, today);
    SortCharacterized(appended, appended, today);
    WithMeetings(personToEdit, SortDescending(appended, today))
  }

  /** The checks of execute, in the source's order, and the edited person when all pass. */
  function Check(shown: seq<Person>, command: AddMeetingCommand, today: Date, now: Time): (r: Result<Person, CommandError>)
    requires forall i :: 0 <= i < |shown| ==> ValidPerson(shown[i])
    requires ValidEvent(command.meeting) && ValidDate(today)
    ensures r == Err(InvalidPersonIndex) <==> command.index >= |shown|
    ensures r.Ok? ==>
      command.index < |shown| && r.value == CreateEditedPerson(shown[command.index], command.meeting, today)
  {
    if command.index >= |shown| then Err(InvalidPersonIndex)
    else
      var person := shown[command.index];
      var meetingDate := GetDate(command.meeting, today);
      if BeforeBirthday(person, meetingDate) then Err(DateBeforeBirthday)
      else if AfterToday(meetingDate, today) then Err(DateAfterToday)
      else if meetingDate == today && AfterNow(command.meeting.time, now) then Err(TimeAfterNow)
      else Ok(CreateEditedPerson(person, command.meeting, today))
  }

  /**
    * The checks' order: an index outside the shown list wins over every
    * other failure; a date before the birthday wins over a date after
    * today; the time is looked at only for a meeting dated today.
    */
  lemma CheckOrder(shown: seq<Person>, command: AddMeetingCommand, today: Date, now: Time)
    requires forall i :: 0 <= i < |shown| ==> ValidPerson(shown[i])
    requires ValidEvent(command.meeting) && ValidDate(today)
    requires command.index < |shown|
    ensures var date := GetDate(command.meeting, today);
      var birthday := shown[command.index].birthday;
      var r := Check(shown, command, today, now);
      && (r == Err(DateBeforeBirthday) <==> Before(date, birthday))
      && (r == Err(DateAfterToday) <==> !Before(date, birthday) && Before(today, date))
      && (r == Err(TimeAfterNow) <==>
            !Before(date, birthday) && date == today && AfterNow(command.meeting.time, now))
  {
  }

  /**
    * A meeting is accepted exactly when the index is in range and the
    * meeting lies between the birthday and now: on or after the birthday,
    * on or before today, and not later than now when it is today.
    */
  lemma AcceptedIffBetweenBirthdayAndNow(shown: seq<Person>, command: AddMeetingCommand, today: Date, now: Time)
    requires forall i :: 0 <= i < |shown| ==> ValidPerson(shown[i])
    requires ValidEvent(command.meeting) && ValidDate(today)
    ensures Check(shown, command, today, now).Ok? <==>
      && command.index < |shown|
      && var date := GetDate(command.meeting, today);
         && EpochDay(shown[command.index].birthday) <= EpochDay(date) <= EpochDay(today)
         && (date == today ==> !AfterNow(command.meeting.time, now))
  {
    if command.index < |shown| {
      var date := GetDate(command.meeting, today);
      var person := shown[command.index];
      BeforeIffEarlierEpochDay(date, person.birthday);
      BeforeIffEarlierEpochDay(today, date);
    }
  }

  /** The application's model, as far as this command uses it. */
  class Model {
    /** The address book's persons. */
    var persons: seq<Person>
    /** The filtered list the user last saw. */
    var filtered: seq<Person>

    predicate Valid()
      reads this
    {
      && (forall p :: p in persons ==> ValidPerson(p))
      && (forall p :: p in filtered ==> p in persons)
    }

    constructor (persons: seq<Person>)
      requires forall p :: p in persons ==> ValidPerson(p)
      ensures Valid() && this.persons == persons && filtered == persons
    {
      this.persons := persons;
      filtered := persons;
    }

    /** Model.setPerson: the first occurrence of `target` becomes `edited`. */
    method SetPerson(target: Person, edited: Person)
      requires target in persons
      modifies this
      ensures persons == old(persons)[FirstIndex(old(persons), target) := edited]
      ensures filtered == old(filtered)
    {
      persons := persons[FirstIndex(persons, target) := edited];
    }

    /** Model.updateFilteredPersonList(PREDICATE_SHOW_ALL_PERSONS). */
    method ShowAllPersons()
      modifies this
      ensures filtered == persons && persons == old(persons)
    {
      filtered := persons;
    }
  }

  /** The position of the first occurrence of `p`. */
  function FirstIndex(ps: seq<Person>, p: Person): (i: nat)
    requires p in ps
    ensures i < |ps| && ps[i] == p && p !in ps[..i]
  {
    if ps[0] == p then 0
    else
      assert p in ps[1..];
      var i := 1 + FirstIndex(ps[1..], p);
      assert ps[..i] == [ps[0]] + ps[1..][..i - 1];
      i
  }

  /**
    * AddMeetingCommand.execute. On failure the model is untouched; on
    * success only the selected person is replaced, by the edited person, and
    * the whole list is shown.
    */
  method Execute(command: AddMeetingCommand, model: Model, today: Date, now: Time)
    returns (r: Result<Person, CommandError>)
    requires model.Valid() && ValidEvent(command.meeting) && ValidDate(today)
    modifies model
    ensures r == Check(old(model.filtered), command, today, now)
    ensures r.Err? ==> model.persons == old(model.persons) && model.filtered == old(model.filtered)
    ensures r.Ok? ==>
      var target := old(model.filtered)[command.index];
      && target in old(model.persons)
      && model.persons == old(model.persons)[FirstIndex(old(model.persons), target) := r.value]
      && model.filtered == model.persons
    ensures model.Valid()
  {
    var shown := model.filtered;
    assert forall i :: 0 <= i < |shown| ==> shown[i] in model.persons;
    r := Check(shown, command, today, now);
    if r.Ok? {
      var person := shown[command.index];
      assert person in shown;
      model.SetPerson(person, r.value);
      model.ShowAllPersons();
      assert forall p :: p in model.persons ==> ValidPerson(p) by {
        forall p | p in model.persons ensures ValidPerson(p) {
          var i :| 0 <= i < |model.persons| && model.persons[i] == p;
          if i != FirstIndex(old(model.persons), person) {
            assert p == old(model.persons)[i];
            assert p in old(model.persons);
          }
        }
      }
    }
  }
}
