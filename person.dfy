/**
  * The person record the commands and the storage adapter build. Names,
  * phones, e-mails, goals, addresses, pictures and tags are kept as the text
  * their (unmodelled) value classes wrap; a person's special dates and
  * meetings are events.
  */
module Persons {
  import opened Wrappers
  import opened Calendar
  import opened Events
  import opened EventOrder
  import opened Debts

  datatype Person = Person(
    name: string,
    phone: string,
    email: string,
    birthday: Date,
    goal: string,
    address: string,
    picture: Nullable<string>,
    debt: Debt,
    tags: set<string>,
    dates: seq<Event>,
    meetings: seq<Event>)

  predicate ValidPerson(p: Person) {
    ValidDate(p.birthday) && AllValid(p.dates) && AllValid(p.meetings)
  }

  /** Person.beforeBirthday: the date lies strictly before the person's birthday. */
  predicate BeforeBirthday(p: Person, date: Date) {
    Before(date, p.birthday)
  }

  /** Person.withMeetings: the same person with another list of meetings. */
  function WithMeetings(p: Person, meetings: seq<Event>): Person {
    p.(meetings := meetings)
  }
}
