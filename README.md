# FriendDex recurring dates, events and person records in Dafny

FriendDex is a contact tracker. This project models its core in Dafny. Each person has a birthday, a debt, tags, and special dates and meetings. An event is fixed, or it recurs weekly or monthly from a seed date.

The model covers:

- **Recurrence resolver.** `RecurringDate.getDate` is modelled twice: as the code is written (`RecurringDates.GetDate`), and as it is evidently meant to be (`RecurringDates.NextOccurrence`). Events resolve their dates with the resolver as written, as the code does. The resolver rests on a proleptic Gregorian calendar in `calendar.dfy`. That file has day numbers, `lengthOfMonth`, `plusDays`, `plusMonths` with end-of-month clamping, and ISO days of the week. Its lemmas prove that date order is day-number order, and that `plusDays` moves the day number by exactly n.
- **Events.** A fixed event keeps its date. A recurring event resolves its date against `now` with the resolver as written; it is the next occurrence wherever the resolver's guard (`RecurringDates.DayFitsNextMonth`) holds, and can lie before `now` where it does not.
- **Event storage form.** Encoding and decoding of the stored record (`JsonAdaptedEvent`).
- **Add-date parser.** The parser after tokenising.
- **Add-meeting command.** The ordered checks, and the append then stable descending sort. `execute` works on a `Model` class.
- **Person storage form.** Decoding a stored person (`JsonAdaptedPerson`): the ordered field checks, the list loops, and the sorts.
- **Debt.** The value is an exact decimal (unscaled integer, scale).
- **Group.** A class whose member set its methods update in place.
- **PersonEvent.** A day-and-month view of an event.

The clock is never read. `today` and `now` are parameters, read once per operation. Strings are sequences of characters.

Where the specification and the code differ, the model follows the code, except for rule equality (see Left out):

- A null recurrence kind is not a fixed event. `recurrenceType.equals` dereferences it, so decoding fails (`JsonEvents.ToModelType`).
- The resolver does not always return a date on or after the reference (see Findings).
- The person decoder does check event dates against the birthday. It uses the date resolved at `today`.

The snapshot is inconsistent in places, and the model reads it as follows:

- The recurrence kind has `None`, as `JsonAdaptedEvent` uses it.
- `getSeed` and `getRecurrenceType` are field reads.

## Model

| member | source | states |
|---|---|---|
| RecurringDates.GetDate | src/main/java/seedu/address/commons/util/RecurringDate.java:32-62 | getDate exactly as written (seed short-circuit, monthly and weekly branches); the result is a calendar date |
| RecurringDates.NextOccurrence | src/main/java/seedu/address/commons/util/RecurringDate.java:26-62 | the corrected resolver, the intended half of the Findings row; the result is a calendar date (its meaning is NextOccurrenceIsNext) |
| RecurringDates.IsSameDayOfMonth | src/main/java/seedu/address/commons/util/RecurringDate.java:18-20 | the two dates share their day of month |
| RecurringDates.IsSameDayOfWeek | src/main/java/seedu/address/commons/util/RecurringDate.java:22-24 | the two dates share their ISO day of week |
| RecurringDates.SeedIsOccurrence | src/main/java/seedu/address/commons/util/RecurringDate.java:18-24 | the seed is an occurrence of its own rule (same day of month, or same ISO day of week) |
| RecurringDates.NextOccurrenceIsNext | src/main/java/seedu/address/commons/util/RecurringDate.java:26-27 | the corrected result is an occurrence, is on or after the reference, and no occurrence lies between the reference and it |
| RecurringDates.NextOccurrenceUnique | src/main/java/seedu/address/commons/util/RecurringDate.java:26-27 | at most one date is the next occurrence on or after a reference |
| RecurringDates.NextOccurrenceIdempotent | src/main/java/seedu/address/commons/util/RecurringDate.java:26-27 | resolving the result again gives the result back |
| RecurringDates.WeeklyIsNext | src/main/java/seedu/address/commons/util/RecurringDate.java:52-60 | the weekly branch as written returns the next occurrence on or after the reference |
| RecurringDates.MonthlyIsNext | src/main/java/seedu/address/commons/util/RecurringDate.java:38-50 | the corrected monthly branch returns the next occurrence on or after the reference |
| RecurringDates.GetDateAgrees | src/main/java/seedu/address/commons/util/RecurringDate.java:38-50 | the code as written equals the corrected resolver whenever the monthly later-day case has a reference day that exists in the next month |
| RecurringDates.OccurrenceFitsNextMonth | src/main/java/seedu/address/commons/util/RecurringDate.java:38-50 | every occurrence meets the guard, since its day of month is never past the seed's |
| RecurringDates.GetDateIsNextWhenGuarded | src/main/java/seedu/address/commons/util/RecurringDate.java:27-50 | under that guard the code as written keeps its "on or after the given date" promise |
| RecurringDates.GetDateCanGoBackwards | src/main/java/seedu/address/commons/util/RecurringDate.java:27-50 | counterexample: seed 2021-01-01 monthly at 2021-01-31 gives 2021-01-29, before the reference |
| RecurringDates.ResolveAtSeed | src/main/java/seedu/address/commons/util/RecurringDate.java:33-35 | resolving at the seed gives the seed, for both kinds, as written and corrected |
| RecurringDates.WeeklyWithinAWeek | src/main/java/seedu/address/commons/util/RecurringDate.java:52-60 | weekly: the seed's day of week, within reference..reference+6 days, and a fixed point of the resolver |
| RecurringDates.MonthlySameOrEarlierDay | src/main/java/seedu/address/commons/util/RecurringDate.java:41-48 | monthly, reference day <= seed day: the seed's day of the same month, clamped to that month's last day |
| RecurringDates.MonthlyLaterDay | src/main/java/seedu/address/commons/util/RecurringDate.java:50 | monthly, reference day > seed day: plusMonths(1) minus the difference; the seed's day of next month when the reference day exists there |
| RecurringDates.ResolverExamples | src/test/java/seedu/address/commons/util/RecurringDateTest.java:20-50 | the weekly, monthly, short-month and leap-year regression cases give the expected dates |
| Events.NewRecurringEvent | src/main/java/seedu/address/model/person/RecurringEvent.java:21-24 | a recurring event with the rule, stored date = seed, no time and the description |
| Events.NewRecurringEventWithTime | src/main/java/seedu/address/model/person/RecurringEvent.java:32-35 | the same with the time carried unchanged |
| Events.GetSeed | src/main/java/seedu/address/model/person/RecurringEvent.java:40-42 | the seed equals the rule's seed and the stored date |
| Events.GetRecurringDate | src/main/java/seedu/address/model/person/RecurringEvent.java:47-49 | the rule, whose seed is the stored date |
| Events.GetDate | src/main/java/seedu/address/model/person/RecurringEvent.java:54-57 | a calendar date; a fixed event gives its own date whatever `now` is; a recurring event gives what its rule's resolver, as written, returns at `now` |
| Events.GetDateIsNextOccurrence | src/main/java/seedu/address/model/person/RecurringEvent.java:54-57 | where the resolver's guard holds at `now`, a recurring event's date is the next occurrence of its rule on or after `now` |
| Events.RecurringDateNotBeforeNow | src/main/java/seedu/address/model/person/RecurringEvent.java:54-57 | where the guard holds, a recurring event's date is not before `now`, and is its own date when `now` is that day |
| Events.RecurringDateCanPrecedeNow | src/main/java/seedu/address/model/person/RecurringEvent.java:54-57 | without the guard the date can precede `now`: a monthly event seeded 2021-01-01 gives 2021-01-29 on 2021-01-31, and 2021-01-31 when asked on 2021-01-29 |
| Events.RecurringEventEquality | src/main/java/seedu/address/model/person/RecurringEvent.java:59-72 | recurring events are equal iff rule, time and description are; never equal to a fixed event; the resolved date plays no part |
| JsonEvents.FromEvent | src/main/java/seedu/address/storage/JsonAdaptedEvent.java:38-51 | stores the stored date (the seed of a recurring event), time and description; kind None for a fixed event, the rule's kind otherwise |
| JsonEvents.ToModelType | src/main/java/seedu/address/storage/JsonAdaptedEvent.java:60-71 | fails exactly when the kind is null; otherwise a fixed event exactly when the kind is None |
| JsonEvents.DecodeKeepsFields | src/main/java/seedu/address/storage/JsonAdaptedEvent.java:60-71 | decoding keeps date, time (present iff non-null) and description; a recurring event gets rule (date, kind) |
| JsonEvents.DecodedEventIsValid | src/main/java/seedu/address/storage/JsonAdaptedEvent.java:60-71 | a decoded record with a calendar date is a well-formed event |
| JsonEvents.DecodeEncode | src/main/java/seedu/address/storage/JsonAdaptedEvent.java:38-71 | decode(encode(e)) == e for both variants |
| JsonEvents.EncodeDecode | src/main/java/seedu/address/storage/JsonAdaptedEvent.java:38-71 | encode(decode(j)) == j for every record with a kind |
| JsonEvents.HasTime | src/main/java/seedu/address/storage/JsonAdaptedEvent.java:53-55 | the record has a time exactly when its time is not null |
| JsonEvents.EncodingIgnoresResolution | src/main/java/seedu/address/storage/JsonAdaptedEvent.java:39-41 | a recurring event is stored with its seed; once the seed has passed, and where the guard holds, that differs from the date it resolves to |
| AddDateParser.Parse | src/main/java/seedu/address/logic/parser/AddDateCommandParser.java:32-65 | a successful parse yields a well-formed event |
| AddDateParser.UsageErrors | src/main/java/seedu/address/logic/parser/AddDateCommandParser.java:39-47 | the usage error happens exactly for a bad index (checked first) or a missing date or description prefix |
| AddDateParser.ValueErrors | src/main/java/seedu/address/logic/parser/AddDateCommandParser.java:49-50 | with a valid index and both prefixes, an unparsable date is the date error whatever the description; the description error happens exactly when the date parsed and the description did not |
| AddDateParser.ParseSucceeds | src/main/java/seedu/address/logic/parser/AddDateCommandParser.java:32-65 | parsing succeeds exactly when index, date and description all parse |
| AddDateParser.ParsedEvent | src/main/java/seedu/address/logic/parser/AddDateCommandParser.java:52-64 | week prefix gives weekly (even with month), else month gives monthly, else a fixed event; seed, description and index as parsed; no time |
| AddMeeting.AppendedGroups | src/main/java/seedu/address/logic/commands/AddMeetingCommand.java:69-70 | appending the meeting adds it at the end of its own date group and leaves the other groups alone |
| AddMeeting.CreateEditedPerson | src/main/java/seedu/address/logic/commands/AddMeetingCommand.java:67-76 | only the meetings change; they are old meetings plus the new one as a multiset, sorted latest first, stably (the new one after the old ones of its date) |
| AddMeeting.Check | src/main/java/seedu/address/logic/commands/AddMeetingCommand.java:79-104 | invalid index iff the index is out of the shown list; success yields the edited person of the selected entry |
| AddMeeting.CheckOrder | src/main/java/seedu/address/logic/commands/AddMeetingCommand.java:92-102 | before-birthday wins over after-today; the time is checked only for a meeting dated today |
| AddMeeting.AcceptedIffBetweenBirthdayAndNow | src/main/java/seedu/address/logic/commands/AddMeetingCommand.java:83-104 | accepted iff index in range, birthday <= date <= today by day number, and not after now when dated today |
| AddMeeting.Model.SetPerson | src/main/java/seedu/address/logic/commands/AddMeetingCommand.java:106 | the first occurrence of the target is replaced; the shown list is untouched |
| AddMeeting.Model.ShowAllPersons | src/main/java/seedu/address/logic/commands/AddMeetingCommand.java:107 | the shown list becomes the whole list |
| AddMeeting.FirstIndex | src/main/java/seedu/address/logic/commands/AddMeetingCommand.java:106 | the position of the first occurrence of a person |
| AddMeeting.Execute | src/main/java/seedu/address/logic/commands/AddMeetingCommand.java:78-109 | result equals Check on the shown list; an error changes nothing; success replaces only the selected person and shows all; the model stays valid |
| JsonPersons.NewJsonPerson | src/main/java/seedu/address/storage/JsonAdaptedPerson.java:60-85 | fields kept as given; a null tag, date or meeting list becomes empty |
| JsonPersons.DecodeTags | src/main/java/seedu/address/storage/JsonAdaptedPerson.java:126-138 | tags decoded entry by entry, the first invalid entry failing the list (meaning in DecodeTagsMeaning) |
| JsonPersons.DecodeTagsMeaning | src/main/java/seedu/address/storage/JsonAdaptedPerson.java:126-138 | tags decode iff every non-null entry is a valid tag name; the result is the set of present names (nulls skipped, duplicates merged) |
| JsonPersons.DecodeTagsErrorSticks | src/main/java/seedu/address/storage/JsonAdaptedPerson.java:128-135 | once an entry fails, the whole list fails with that error |
| JsonPersons.TagsToModelType | src/main/java/seedu/address/storage/JsonAdaptedPerson.java:126-138 | the loop equals the entry-by-entry definition and yields the set of present tag names |
| JsonPersons.NullTagsSkipped | src/main/java/seedu/address/storage/JsonAdaptedPerson.java:130-133 | a null tag entry anywhere in the list changes nothing |
| JsonPersons.DecodeEntry | src/main/java/seedu/address/storage/JsonAdaptedPerson.java:149-157 | an entry is accepted, as the event its record decodes to, exactly when it has a kind and that event's date resolved at today is not before the birthday; a null kind fails with the event's own error and a resolved date before the birthday fails with the list's error |
| JsonPersons.DecodeEvents | src/main/java/seedu/address/storage/JsonAdaptedPerson.java:140-184 | a decoded list holds well-formed events, none resolved to a date before the birthday |
| JsonPersons.DecodeEventsErrorSticks | src/main/java/seedu/address/storage/JsonAdaptedPerson.java:142-158 | once an entry fails, the whole list fails with that error |
| JsonPersons.DecodeEventsMeaning | src/main/java/seedu/address/storage/JsonAdaptedPerson.java:140-184 | decodes iff every non-null entry decodes and is not before the birthday; the result is the present entries decoded, in order; an error is that of the first failing entry |
| JsonPersons.NullEntriesSkipped | src/main/java/seedu/address/storage/JsonAdaptedPerson.java:144-170 | a null date or meeting entry anywhere in the list changes nothing |
| JsonPersons.RecurringEntryCheckedAsResolved | src/main/java/seedu/address/storage/JsonAdaptedPerson.java:149-157 | a recurring entry is checked at the date the resolver as written gives: seed 2021-01-01 monthly, birthday 2021-01-30, read on 2021-01-31, is refused as before the birthday |
| JsonPersons.EventOnBirthdayAccepted | src/main/java/seedu/address/storage/JsonAdaptedPerson.java:149-157 | an entry dated on the birthday itself is accepted |
| JsonPersons.EventsToModelType | src/main/java/seedu/address/storage/JsonAdaptedPerson.java:140-184 | the loop equals the entry-by-entry definition; the events are valid and none is before the birthday |
| JsonPersons.DecodePerson | src/main/java/seedu/address/storage/JsonAdaptedPerson.java:191-281 | the field checks in order, the first failure the error, then the lists (meaning in FirstBadFieldReported, ListsCheckedAfterFields, DecodedPersonFields, DecodedPersonEvents) |
| JsonPersons.FieldStatusMeaning | src/main/java/seedu/address/storage/JsonAdaptedPerson.java:191-264 | a single field passes iff it meets its condition (required fields present and valid after trimming, the picture valid when present, the debt text a valid debt); a failing field reports a missing or an invalid error naming itself |
| JsonPersons.FirstErrorMeaning | src/main/java/seedu/address/storage/JsonAdaptedPerson.java:191-264 | no field error from a position on iff every later field passes |
| JsonPersons.SkipPassing | src/main/java/seedu/address/storage/JsonAdaptedPerson.java:191-264 | passing fields are skipped on the way to the first failing one |
| JsonPersons.FirstBadFieldReported | src/main/java/seedu/address/storage/JsonAdaptedPerson.java:191-264 | fields are checked in the order name, phone, email, birthday, goal, address, picture, debt, each trimmed; the first missing or invalid one is the error |
| JsonPersons.FieldsPassStatuses | src/main/java/seedu/address/storage/JsonAdaptedPerson.java:191-264 | all fields pass iff no outcome in the ordered list of field checks is an error |
| JsonPersons.FieldsPassMeaning | src/main/java/seedu/address/storage/JsonAdaptedPerson.java:191-264 | all fields pass iff each field meets its condition |
| JsonPersons.PassingFieldsPresent | src/main/java/seedu/address/storage/JsonAdaptedPerson.java:191-264 | once all fields pass, every required field is present and the debt text is a valid debt |
| JsonPersons.FieldsPassDecodesLists | src/main/java/seedu/address/storage/JsonAdaptedPerson.java:191-281 | once all fields pass, decoding the person is decoding the tag, date and meeting lists |
| JsonPersons.ListsCheckedAfterFields | src/main/java/seedu/address/storage/JsonAdaptedPerson.java:266-268 | with all fields passing, decoding succeeds iff tags, dates and meetings do; tags are checked before dates |
| JsonPersons.DecodedFieldsPass | src/main/java/seedu/address/storage/JsonAdaptedPerson.java:191-264 | a decoded person passed every field check |
| JsonPersons.DecodedPersonFields | src/main/java/seedu/address/storage/JsonAdaptedPerson.java:196-280 | the person holds the trimmed fields, the stored birthday, the picture (none when null), the goal and debt parsed from trimmed text, and the present tag names |
| JsonPersons.DecodedPersonEvents | src/main/java/seedu/address/storage/JsonAdaptedPerson.java:266-280 | dates and meetings are permutations of the decoded entries, stably sorted latest first by resolved date, none before the birthday |
| JsonPersons.SortedStaysAfterBirthday | src/main/java/seedu/address/storage/JsonAdaptedPerson.java:271-277 | sorting keeps the not-before-birthday bound |
| JsonPersons.ToModelType | src/main/java/seedu/address/storage/JsonAdaptedPerson.java:191-281 | the step-by-step conversion equals the field-then-lists definition |
| JsonPersons.ListsToModelType | src/main/java/seedu/address/storage/JsonAdaptedPerson.java:266-281 | the conversion after the field checks equals the lists definition |
| EventOrder.Insert | src/main/java/seedu/address/storage/JsonAdaptedPerson.java:271-277 | inserting keeps the events valid and adds exactly the one event, as a multiset |
| EventOrder.SortDescending | src/main/java/seedu/address/storage/JsonAdaptedPerson.java:271-277 | the sorted list is a permutation of the input |
| EventOrder.SortIsDescending | src/main/java/seedu/address/storage/JsonAdaptedPerson.java:271-277 | the sorted list is in non-increasing order of resolved date |
| EventOrder.SortIsStable | src/main/java/seedu/address/storage/JsonAdaptedPerson.java:271-277 | events of one resolved date keep their relative order |
| EventOrder.DescendingDeterminedByGroups | src/main/java/seedu/address/storage/JsonAdaptedPerson.java:271-277 | two descending lists whose same-date groups agree are equal |
| EventOrder.SortCharacterized | src/main/java/seedu/address/storage/JsonAdaptedPerson.java:271-277 | the sort is descending, a permutation and stable, and is the only descending list with the input's same-date groups |
| Debts.CompareTo | src/main/java/seedu/address/model/person/Debt.java:46-64 | the result is -1, 0 or 1 |
| Debts.CompareToIsNumeric | src/main/java/seedu/address/model/person/Debt.java:46-64 | compareTo is -1, 0 or 1 exactly as the numeric value is smaller, equal or larger, whatever the scales |
| Debts.IsValidDebt | src/main/java/seedu/address/model/person/Debt.java:46-55 | isValidDebt on the parsed text (meaning in IsValidDebtMeaning) |
| Debts.IsValidDebtMeaning | src/main/java/seedu/address/model/person/Debt.java:46-55 | valid iff parsed, scale <= 2 and the value within -999999999999..999999999999 |
| Debts.FromString | src/main/java/seedu/address/model/person/Debt.java:26-30 | succeeds iff the text is a valid debt, keeping the parsed value |
| Debts.IsDebtOutOfRange | src/main/java/seedu/address/model/person/Debt.java:62-64 | isDebtOutOfRange (meaning in OutOfRangeMeaning) |
| Debts.OutOfRangeMeaning | src/main/java/seedu/address/model/person/Debt.java:62-64 | out of range iff above MAX or below MIN; never for a debt built from valid text |
| Debts.Add | src/main/java/seedu/address/model/person/Debt.java:72-76 | the result's scale is the larger of the two scales |
| Debts.Subtract | src/main/java/seedu/address/model/person/Debt.java:84-88 | the result's scale is the larger of the two scales |
| Debts.AddExact | src/main/java/seedu/address/model/person/Debt.java:72-76 | the sum's value is the sum of the values, exactly |
| Debts.SubtractExact | src/main/java/seedu/address/model/person/Debt.java:84-88 | the difference's value is the difference of the values, exactly |
| Debts.AddSubtractExact | src/main/java/seedu/address/model/person/Debt.java:36-88 | sum and difference are exact, with no range check; scale <= 2 is preserved |
| Debts.AddThenSubtract | src/main/java/seedu/address/model/person/Debt.java:72-88 | subtracting what was added gives the original value back |
| Debts.EqualityIsRepresentational | src/main/java/seedu/address/model/person/Debt.java:107-112 | 1.0 and 1.00 compare equal but are unequal debts |
| Debts.CentsRounding | src/main/java/seedu/address/model/person/Debt.java:94-100 | the two-decimal rendering rounds half up |
| Debts.Magnitude | src/main/java/seedu/address/model/person/Debt.java:98 | abs keeps the scale and is non-negative |
| Debts.ExactCents | src/main/java/seedu/address/model/person/Debt.java:94-100 | with scale <= 2 the rendering shows the value exactly, in cents |
| Debts.FormatCentsRoundTrip | src/main/java/seedu/address/model/person/Debt.java:96 | the two-decimal text of a cent amount reads back as that amount |
| Debts.ToUi | src/main/java/seedu/address/model/person/Debt.java:94-100 | "$" or "-$" by sign, then the magnitude to two places (meaning in ToUiShowsCents) |
| Debts.ToUiShowsCents | src/main/java/seedu/address/model/person/Debt.java:94-100 | "$" and two decimals for a non-negative value, "-$" and two decimals of the magnitude otherwise; exact for scale <= 2 |
| Groups.Least | src/main/java/seedu/address/model/group/Group.java:116 | the smallest name of a non-empty set in String order |
| Groups.AscendingListsTheSet | src/main/java/seedu/address/model/group/Group.java:116 | the ascending listing holds each member once, strictly ascending |
| Groups.AscendingUnique | src/main/java/seedu/address/model/group/Group.java:116 | any strictly ascending listing of the members is that listing |
| Groups.LeastName | src/main/java/seedu/address/model/group/Group.java:116 | the loop finds the smallest member name |
| Groups.Group.constructor | src/main/java/seedu/address/model/group/Group.java:27-31 | the name and members as given |
| Groups.Group.Empty | src/main/java/seedu/address/model/group/Group.java:38-42 | the name, and no members |
| Groups.Group.AddPerson | src/main/java/seedu/address/model/group/Group.java:52-54 | the person's name joins; nothing else changes |
| Groups.Group.AddPersonName | src/main/java/seedu/address/model/group/Group.java:56-58 | the name joins; nothing else changes |
| Groups.Group.RemovePersonName | src/main/java/seedu/address/model/group/Group.java:60-62 | the name leaves; nothing else changes |
| Groups.Group.SetPersonName | src/main/java/seedu/address/model/group/Group.java:71-76 | a member old is replaced by new; an absent old changes nothing |
| Groups.Group.SetPerson | src/main/java/seedu/address/model/group/Group.java:64-69 | the same on the two persons' names |
| Groups.Group.SetPersons | src/main/java/seedu/address/model/group/Group.java:78-80 | the membership becomes the given set |
| Groups.Group.DeletePerson | src/main/java/seedu/address/model/group/Group.java:82-91 | the name is no member afterwards, with no error when absent |
| Groups.Group.IsEmpty | src/main/java/seedu/address/model/group/Group.java:93-95 | empty iff no name is a member |
| Groups.Group.ToUi | src/main/java/seedu/address/model/group/Group.java:115-117 | the member names sorted ascending and joined with ", " |
| Groups.Group.IsSameGroup | src/main/java/seedu/address/model/group/Group.java:106-113 | the same object, or a group with the same name |
| Groups.Group.Equals | src/main/java/seedu/address/model/group/Group.java:124-136 | the same object, or a group with the same name and the same member names |
| Groups.EqualsIsStrongerThanSameGroup | src/main/java/seedu/address/model/group/Group.java:106-136 | equals implies isSameGroup; a same-named group with other members is the same group but not equal |
| PersonEvents.NewPersonEvent | src/main/java/seedu/address/model/person/PersonEvent.java:19-24 | keeps the day of month (1..31) and the month (1..12), the person and the description |
| PersonEvents.PersonEventEquality | src/main/java/seedu/address/model/person/PersonEvent.java:50-65 | equal iff day, month, person and description are; dates a year apart give equal events |
| PersonEvents.BirthdayDescription | src/main/java/seedu/address/model/person/PersonEvent.java:42-44 | the name followed by "'s Birthday" |
| PersonEvents.EventDescription | src/main/java/seedu/address/model/person/PersonEvent.java:46-48 | the description, " [", the name and "]" |
| PersonEvents.DescriptionsDetermineName | src/main/java/seedu/address/model/person/PersonEvent.java:42-48 | both descriptions give back the name they were built from |

## Left out

- Reading the clock (`LocalDate.now()`, `DateUtil.isToday`/`afterToday`) is not modelled. `today` and `now` are parameters, captured once per operation. `TimeUtil.afterNow` is not part of this model: it is assumed to be a strict time comparison, with a missing time never after now.
- The unseen value classes and their validators are parameters: `Name`, `Phone`, `Email`, `Birthday.isValidBirthday`, `Goal.isValidGoal`/`parseFrequency` (with lower-casing), `Address`, `JsonAdaptedPicture`, `JsonAdaptedTag`/`Tag.isValidTagName`. Each field is kept as the text it wraps.
- BigDecimal's string parser is a parameter. The model takes its result: an (unscaled, scale) pair, or none for a NumberFormatException.
- `JsonAdaptedSpecialDate` and `JsonAdaptedMeeting` are not part of this model. Both are taken to decode like `JsonAdaptedEvent`.
- The `JsonAdaptedPerson(Person)` encoder depends on the unseen adapters and is not modelled.
- `Model` is not part of this model. `setPerson` is assumed to replace the first element equal to the target. Persons compare as values: `Person.equals` is datatype equality.
- `Person.beforeBirthday` is not part of this model. It is taken to be a strict `isBefore` on the birthday, as `JsonAdaptedPerson` writes out.
- Group: member names are a set value. The model does not capture `Group(name, persons)` sharing the caller's set object (aliasing).
- Debt.toUi: `String.format`'s locale is left out. The model assumes the decimal point is "." and there is no grouping.
- String order is on Dafny characters. The model assumes these order like Java's UTF-16 code units (true within the Basic Multilingual Plane).
- The `ArgumentTokenizer` and `ParserUtil` are abstracted. The parser takes the index, date and description as already parsed (or as unparsable/absent), and whether the week and month prefixes are present.
- Events.RecurringEventEquality: rules compare by value. `RecurringDate` declares no `equals`, so `Objects.equals` at RecurringEvent.java:71 compares them by identity, and two events built from separately constructed equal rules are unequal in the code, though the `RecurringEvent` test expects them equal. The model does not capture object identity.
- A null stored date or description of an event record is not modelled: the record's date and description are always present. In the code a null date is passed on by `toModelType` and fails later with a NullPointerException, at the birthday check or inside the resolver.
- Calendar: years are unbounded. `LocalDate`'s year range of -999999999..999999999, and the DateTimeException `plusDays` and `plusMonths` throw beyond it, are not modelled.
- Not modelled: logging, error-message text, `toString`, `hashCode` and Jackson's JSON text.

## Findings

| source | as written | input that shows it | evidently intended | confidence | as-written member | corrected member |
|---|---|---|---|---|---|---|
| src/main/java/seedu/address/commons/util/RecurringDate.java:50 | monthly, reference day > seed day: `date.plusMonths(1).minusDays(day - seedDay)`; when the reference day exceeds next month's length, plusMonths clamps first and the subtraction lands before the reference | seed 2021-01-01 monthly, reference 2021-01-31 gives 2021-01-29 | the first day with the seed's day of month (clamped to month end) on or after the reference, as the comment at line 27 promises: 2021-02-01 | high (proved; not executed) | RecurringDates.GetDateCanGoBackwards | RecurringDates.NextOccurrenceIsNext |
