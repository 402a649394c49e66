/**
  * An entry of the upcoming-events view: a day and a month (no year), the
  * person it belongs to and a description.
  */
module PersonEvents {
  import opened Calendar
  import opened Events
  import opened Persons

  datatype PersonEvent = PersonEvent(date: int, month: int, person: Person, description: string)

  /** PersonEvent(localDate, person, description): keeps the day of month and the month only. */
  function NewPersonEvent(localDate: Date, person: Person, description: string): (e: PersonEvent)
    requires ValidDate(localDate)
    ensures e.date == localDate.day && e.month == localDate.month
    ensures 1 <= e.date <= 31 && 1 <= e.month <= 12
    ensures e.person == person && e.description == description
  {
    PersonEvent(localDate.day, localDate.month, person, description)
  }

  /**
    * Equality is equality of day, month, person and description; in
    * particular two dates a year apart give equal events.
    */
  lemma PersonEventEquality(d1: Date, p1: Person, s1: string, d2: Date, p2: Person, s2: string)
    requires ValidDate(d1) && ValidDate(d2)
    ensures NewPersonEvent(d1, p1, s1) == NewPersonEvent(d2, p2, s2)
        <==> d1.day == d2.day && d1.month == d2.month && p1 == p2 && s1 == s2
    ensures d1.day == d2.day && d1.month == d2.month && d1.year != d2.year && p1 == p2 && s1 == s2
        ==> d1 != d2 && NewPersonEvent(d1, p1, s1) == NewPersonEvent(d2, p2, s2)
  {
  }

  /** getBirthdayDescription: the name followed by "'s Birthday". */
  function BirthdayDescription(person: Person): (s: string)
    ensures |s| == |person.name| + 11
    ensures s[..|person.name|] == person.name && s[|person.name|..] == "'s Birthday"
  {
    person.name + "'s Birthday"
  }

  /** getEventDescription: the event's description, then the name in square brackets. */
  function EventDescription(person: Person, event: Event): (s: string)
    ensures |s| == |event.description| + |person.name| + 3
    ensures s[..|event.description|] == event.description
    ensures s[|event.description|..|event.description| + 2] == " ["
    ensures s[|event.description| + 2..|s| - 1] == person.name && s[|s| - 1] == ']'
  {
    event.description + " [" + person.name + "]"
  }

  /** The birthday and event descriptions give back the name they were built from. */
  lemma DescriptionsDetermineName(p1: Person, p2: Person, e: Event)
    ensures BirthdayDescription(p1) == BirthdayDescription(p2) ==> p1.name == p2.name
    ensures EventDescription(p1, e) == EventDescription(p2, e) ==> p1.name == p2.name
  {
    var b1, b2 := BirthdayDescription(p1), BirthdayDescription(p2);
    if b1 == b2 {
      assert p1.name == b1[..|b1| - 11];
      assert p2.name == b2[..|b2| - 11];
    }
    var e1, e2 := EventDescription(p1, e), EventDescription(p2, e);
    var n := |e.description|;
    if e1 == e2 {
      assert p1.name == e1[n + 2..|e1| - 1];
      assert p2.name == e2[n + 2..|e2| - 1];
    }
  }
}
