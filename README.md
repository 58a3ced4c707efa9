# Contact book: a verified Dafny model

This project models `task_01.py`, a small in-memory contact book:

- **Phone**: a field whose value must be exactly ten decimal digits.
- **Birthday**: a field whose text is parsed as `DD.MM.YYYY` into a calendar date.
- **Record**: a name fixed at construction, an ordered list of phones and an optional birthday.
  - Phones are added, removed, edited and found by first match.
- **AddressBook**: a dictionary from a name to a record. Records are added (insert or overwrite), found and deleted.
  - It answers one query: which contacts to congratulate within the next `days` days. A birthday that falls on a weekend is moved to the following Monday.

The model has eight modules:

- `Results`: the error outcomes (`ValueError`, `OverflowError` and `KeyError` of the program) as values.
- `Calendar`: the proleptic Gregorian calendar of Python's `date`.
  - Covers years 1 to 9999 and the day ordinal, with 0001-01-01 as day 1.
  - Covers the weekday, with Monday 0, date comparison, and adding days.
  - Adding days is specified by converting a date to its ordinal and back.
- `Fields`: phone validation, the `strptime("%d.%m.%Y")` parse and the `strftime("%d.%m.%Y")` format.
- `Records`: the `Record` class.
  - Its phone list is a `seq` that the methods reassign, and its birthday is an `Option` field.
  - `RemovePhone`, `EditPhone` and `FindPhone` loop over the phones as the source does.
  - `RemovePhone` and `EditPhone` are proved against specification functions on sequences (`RemoveFirst`, `ReplaceFirst`). `FindPhone` states its first-match result directly.
  - `AddPhone` and `AddBirthday` are single steps, with no loop, as in the source.
- `OrderedMaps`: the insertion-ordered dictionary behind the address book. An overwrite keeps the key's position, and a delete closes the gap.
- `Birthdays`: the upcoming-birthday query as pure functions (`Occurrence`, `CongratulationFor`, `Greets`, `Collect`, `Upcoming`) with lemmas about them.
- `AddressBooks`: the `AddressBook` class.
  - Its query method loops over the records in iteration order.
  - The method is proved equal to `Birthdays.Upcoming` of the records.
- `Scenarios`: worked queries on fixed dates.

Other modelling choices:

- **The clock.** "Today" is a parameter of the query.
- **Errors are outcomes.** Every place where the source raises becomes a `Failure`/`Fail` outcome, and the operation then leaves the state unchanged.
- **One error for failed date construction.** `Error.DayOutOfRange` stands for any `ValueError` from building a date. This covers a Feb 29 in a common year and the year 10000.
- **Overflow.** `Error.DateOverflow` is the `OverflowError` of `date + timedelta`.

Two behaviours of the program that are easy to miss:

- **Date fields.** The format `"%d.%m.%Y"` is usually written with two-digit, zero-padded day and month fields. `strptime`'s `%d` and `%m` also accept a one-digit field, and `%d` accepts a day written as a space and a digit (`" 5.07.2024"`). `Fields.ParseDate` accepts the same texts. `Fields.ParseFields` states the parse of every such text, and `Fields.ParseShape` states that no other text parses.
- **Query order.** The query's result follows the dictionary's iteration order, which is insertion order. `Birthdays.CollectOrigins` and `Birthdays.UpcomingEntries` state that order.

## Model

| member | source | states |
|---|---|---|
| `Calendar.MakeDate` | task_01.py:85 | Building `date(y, m, d)` succeeds exactly when the fields name a real date of years 1 to 9999. The result has those fields. Otherwise it raises the date-construction `ValueError`. |
| `Calendar.BeforeIffOrdinalLess` | task_01.py:88 | The program's field-by-field date comparison `a < b` holds exactly when `a`'s day count is smaller. Two dates are equal exactly when their day counts are. |
| `Calendar.FromOrdinal` | task_01.py:79 | For every day count from 1 to that of 9999-12-31 there is a valid date with exactly that count. |
| `Calendar.FromOrdinalToOrdinal` | task_01.py:79 | Converting a valid date to its day count and back gives the same date, and the count is within the calendar's range. |
| `Calendar.AddDays` | task_01.py:79 | `d + timedelta(days=k)` succeeds exactly when the day count `ordinal(d) + k` is within the calendar. The result is then a valid date with that count. Otherwise it is the `OverflowError` outcome. |
| `Calendar.AddDaysLandsOn` | task_01.py:79 | `d + k` days is the valid date `e` if and only if `e`'s day count is `d`'s plus `k`. |
| `Calendar.WeekdayAfter` | task_01.py:92-93 | A date `k` days after `d` has weekday `(weekday(d) + k) mod 7`. |
| `Calendar.LastDateIsFriday` | task_01.py:93 | 9999-12-31, the last representable date, is valid, has the largest day count and is a Friday. |
| `Calendar.WeekendShiftLandsOnMonday` | task_01.py:92-94 | Adding `7 - weekday` days to a Saturday or a Sunday never overflows. It lands on a Monday, 2 days on from a Saturday and 1 day from a Sunday. |
| `Fields.ValidatePhone` | task_01.py:16-19 | Validation passes exactly when the value is ten characters, each `'0'` to `'9'`. Otherwise it fails with the phone format error. |
| `Fields.PhonePatternAcceptsNewline` | task_01.py:17-18 | The pattern as written, `re.match(r'^\d{10}$')`, accepts `"0123456789\n"`, which is not ten digits. |
| `Fields.PhonePatternAccepts` | task_01.py:17-18 | The pattern as written (ten digits, then the end of the text or one final newline) accepts exactly the ten-digit values and the ten-digit values followed by `"\n"`. |
| `Fields.PhonePatternAgrees` | task_01.py:17-18 | For values that do not end in a newline, the pattern as written accepts exactly the ten-digit values. |
| `Fields.ParseDate` | task_01.py:25 | A successful parse yields a valid calendar date. Every failure, whether the shape is wrong or the date does not exist, is the date format error. |
| `Fields.ParseBirthday` | task_01.py:21-27 | Constructing a Birthday succeeds exactly when the text parses. The field then keeps the original text and the parsed date. Otherwise it raises the date format error. |
| `Fields.ParseFields` | task_01.py:25 | Any text made of a `%d` day field (`01` to `31`, `1` to `9`, or a space and `1` to `9`), a dot, a `%m` month field (`01` to `12` or `1` to `9`), a dot and a four-digit year parses exactly when the numbers the fields denote form a real date. The result is then that date. |
| `Fields.ParseShape` | task_01.py:25 | Every text that parses is a day field, a dot, a month field, a dot and a year field, and the result is the date those fields denote. |
| `Fields.OneDigitFieldsParse` | task_01.py:25 | `"5.7.2024"` parses to 5 July 2024. |
| `Fields.SpacePaddedDayParses` | task_01.py:25 | `" 5.07.2024"` parses to 5 July 2024. |
| `Fields.SpacePaddedMonthFails` | task_01.py:25-27 | `"01. 1.2024"` does not parse, because `%m` does not accept a space-padded month. It gives the date format error. |
| `Fields.ParseCanonical` | task_01.py:25 | On text shaped `DD.MM.YYYY` in digits, parsing succeeds exactly when the spelled-out day, month and year form a real date. The parsed date then equals those fields. |
| `Fields.FormatDateCanonical` | task_01.py:100 | Formatting a date gives ten characters in the `DD.MM.YYYY` shape whose day, month and year fields are the date's own. |
| `Fields.ParseFormatRoundTrip` | task_01.py:100 | The printed congratulation date parses back to the same date. |
| `Fields.FormatParseRoundTrip` | task_01.py:25 | Canonical `DD.MM.YYYY` text that parses prints back to the identical text. |
| `Records.FirstIndex` | task_01.py:41-42 | The first position whose phone has the given value: `None` exactly when no phone has it. Otherwise the position holds the value and no earlier position does. |
| `Records.RemoveFirstSpec` | task_01.py:40-44 | Removal takes out exactly the first matching phone and keeps the rest in order. With no match the list is unchanged. |
| `Records.RemoveFirstMultiset` | task_01.py:43 | When there is a match, removal drops exactly one copy of that phone from the multiset of phones, and the length falls by one. |
| `Records.RemoveOnlyMatchTwice` | task_01.py:40-44 | When the value occurs once, one removal leaves no phone with that value, and a second removal changes nothing. |
| `Records.ReplaceFirstSpec` | task_01.py:46-52 | Editing replaces the phone at the first match's index, which keeps the length and every other phone. With no match the list is unchanged. |
| `Records.JoinValidPhones` | task_01.py:63-64 | The `"; "`-joined text of valid phones is `12n - 2` characters long. The k-th phone sits at offset `12k`, and `"; "` sits at offset `12k + 10` between consecutive phones, so the text determines the list. |
| `Records.Record.constructor` | task_01.py:29-33 | A new record has the given name, no phones and no birthday. |
| `Records.Record.AddPhone` | task_01.py:35-38 | The outcome is the phone validation. On success the phone is appended. On failure the phones are unchanged. The birthday is never touched, and all phones stay valid. |
| `Records.Record.RemovePhone` | task_01.py:40-44 | The new phone list is the old list with its first match removed, by the loop. The birthday is untouched. |
| `Records.Record.EditPhone` | task_01.py:46-52 | With no match there is no error, even for an invalid new value, and nothing changes. With a match the outcome is the new value's validation. The first match is replaced only when validation passes. |
| `Records.Record.FindPhone` | task_01.py:54-58 | Returns `None` exactly when no phone has the value. Otherwise it returns the phone at the first position holding the value. |
| `Records.Record.ToStringLayout` | task_01.py:63-64 | For a record with valid phones, the text is `"Contact name: "`, the name and `", phones: "`, followed by the phones. The phone part is `12n - 2` characters long. Phone k sits at offset `12k` of it, and `"; "` sits between consecutive phones. |
| `Records.Record.AddBirthday` | task_01.py:60-61 | A parsable text replaces the birthday with its parse. Otherwise the date format error is raised and the old birthday stays. The phones are untouched. |
| `OrderedMaps.PutValid` | task_01.py:67-68 | Inserting or overwriting keeps the keys distinct and equal to the dictionary's keys. |
| `OrderedMaps.GetPut` | task_01.py:67-71 | After `book[name] = record`, `get(name)` returns that record, and every other name keeps its lookup. |
| `OrderedMaps.PutOrder` | task_01.py:67-68 | Overwriting an existing name keeps the iteration order. A new name is appended at the end. |
| `OrderedMaps.WithoutSpec` | task_01.py:73-74 | Deleting a key from the key order keeps exactly the other keys, and keeps them distinct. |
| `OrderedMaps.RemoveValid` | task_01.py:73-74 | Deleting a present key keeps the map well formed. |
| `OrderedMaps.GetRemove` | task_01.py:71-74 | After `del book[name]`, `get(name)` is `None` and every other name keeps its record. The remaining keys keep their order with the deleted position closed up. |
| `AddressBooks.AddressBook.constructor` | task_01.py:66 | A new address book is empty. |
| `AddressBooks.AddressBook.AddRecord` | task_01.py:67-68 | The record is filed under its own name, overwriting in place or appending. Every record stays filed under its own name. |
| `AddressBooks.AddressBook.Find` | task_01.py:70-71 | Returns the record filed under the name, or `None`, and never raises. A found record carries that name. |
| `AddressBooks.AddressBook.Delete` | task_01.py:73-74 | Deleting a present name removes it. Deleting an absent name raises `KeyError(name)` and changes nothing. |
| `AddressBooks.AddressBook.People` | task_01.py:81-82 | The records as the query reads them, one per key in iteration order. Person i is the name and birthday of the record filed under key i, and its name is that key. The names are therefore distinct. |
| `AddressBooks.AddressBook.GetUpcomingBirthdays` | task_01.py:76-103 | The query's result, including its error outcomes, is `Upcoming` of the records in iteration order, the window and the given today. A successful result never names a contact twice. |
| `AddressBooks.AddressBook.CollectGreetings` | task_01.py:81-101 | The loop over the records appends each record's entry in order and stops at the first error. Its result is `Collect` of all records. |
| `AddressBooks.Entry` | task_01.py:82-101 | A record's entry fails exactly when it has a birthday whose occurrence cannot be built. An entry that is present names the record, which has a birthday. Its date text reads back as a weekday between today and two days past the window's end. |
| `AddressBooks.Congratulate` | task_01.py:85-96 | One record's step fails exactly when building the occurrence fails. It gives no date exactly when the occurrence lies after the window's end. A date it gives comes from an occurrence in `[today, end]`. That date is a weekday not before today: the occurrence itself on a weekday, or the Monday 2 days (Saturday) or 1 day (Sunday) later. |
| `AddressBooks.NextOccurrence` | task_01.py:85-89 | The occurrence has the birthday's month and day and is not before today. It lies in today's year, or in the next year only when this year's date has passed. |
| `AddressBooks.CollectNext` | task_01.py:81-101 | The query over one more record extends the query so far by that record's entry. An earlier error wins. |
| `Birthdays.OccurrenceSpec` | task_01.py:85-89 | The occurrence has the birthday's month and day and is not before today. It lies in today's year, or in the next year exactly when this year's date has passed. |
| `Birthdays.OccurrenceFailure` | task_01.py:85-89 | Building the occurrence fails exactly in two cases: a Feb 29 in a common current year, or this year's date has passed and the next year is 10000 or, for a Feb 29, common. |
| `Birthdays.LeapDayOccurrence` | task_01.py:85-89 | A Feb 29 birthday has an occurrence exactly when today is in a leap year on or before that year's Feb 29. |
| `Birthdays.CongratulationOutcome` | task_01.py:85-96 | Only building the occurrence can fail, because the weekend shift never overflows. There is no entry exactly when the occurrence lies after the window's end. |
| `Birthdays.CongratulationDate` | task_01.py:88-96 | A congratulation date comes from an occurrence within `[today, end]`. It is a weekday, not before today, and equal to the occurrence on a weekday. Otherwise it is the Monday 2 days (Saturday) or 1 day (Sunday) later. |
| `Birthdays.CollectStep` | task_01.py:98-101 | Adding a person to the end extends the result by that person's entry, if any. An earlier error wins. |
| `Birthdays.CollectFailure` | task_01.py:81-101 | The query over the records fails exactly when some record's entry fails. |
| `Birthdays.CollectOrigins` | task_01.py:81-101 | Every entry comes from a distinct person, at strictly increasing positions, so the output is in iteration order with at most one entry per record. Every person with an entry appears. |
| `Birthdays.GreetingEntry` | task_01.py:98-101 | An entry names a person with a birthday. Its date text parses back to a weekday between today and two days past the window's end. |
| `Birthdays.UpcomingEntries` | task_01.py:76-103 | Entry k of a successful query comes from the record at position `idx[k]`. The positions strictly increase, so there is at most one entry per record, in iteration order. That record has a birthday and the entry's name. The entry's date text reads back as a weekday in `[today, today + days + 2]`. |
| `Birthdays.UpcomingDistinctNames` | task_01.py:76-103 | Records with distinct names give entries with distinct names. |
| `Scenarios.OneEntry` | task_01.py:76-103 | A one-record book whose occurrence is in the window lists that record once, with the occurrence or its following Monday. |
| `Scenarios.NoEntry` | task_01.py:91 | A one-record book whose occurrence is after the window lists nobody. |
| `Scenarios.OneFailure` | task_01.py:85-89 | A one-record book whose occurrence cannot be built fails with that error. |
| `Scenarios.WeekdayBirthday` | task_01.py:76-103 | John's birthday, 30.07.2024 (a Tuesday), seen on 25.07.2024 with 7 days, is listed as `30.07.2024`. |
| `Scenarios.SaturdayBirthday` | task_01.py:92-96 | A birthday on Saturday 27.07.2024, seen on 25.07.2024, is listed for Monday `29.07.2024`. |
| `Scenarios.ShiftLeavesWindow` | task_01.py:91-96 | A Saturday birthday on the window's last day is listed for the Monday after the window closes. |
| `Scenarios.BirthdayAfterWindow` | task_01.py:91 | A birthday two weeks away is not listed by a 7-day query. |
| `Scenarios.NewYearBirthday` | task_01.py:88-89 | Seen on 30.12.2025, a 1 January birthday rolls to `01.01.2026`. |
| `Scenarios.LeapDayAfterFebruary` | task_01.py:89 | Seen on 01.03.2024, a Feb 29 birthday has passed and 2025 has no Feb 29, so the query fails with the date-construction error. |

## Left out

- The system clock: `datetime.today()` (task_01.py:77) is replaced by the `today` parameter of the query.
- The example usage and its `print` (task_01.py:105-119): a demonstration, not part of the contact book.
- The inherited mapping surface of `UserDict` (iteration helpers, `len`, `in`, `update` and the rest): only `add_record`, `find`, `delete` and the iteration the query uses are modelled. The defensive `getattr` (task_01.py:82) is the record's birthday field.
- `Field.__str__` and `Name`: a field is its string value; a record's name is a `string` fixed at construction.
- Phone objects are modelled as values. Python's `list.remove(phone)` finds the object found by the loop; every phone object is a separate object, so this is the first match, which is what the model removes.
- `Fields.ValidatePhone`, `Fields.ParseDate`: characters are ASCII only. Python's `\d` in the phone pattern and in `strptime`, and `int()`, also accept non-ASCII Unicode decimal digits; the model rejects them.
- `Fields.ValidatePhone`: models the intended ten-digit check rather than the pattern as written, which also lets a trailing newline through (see Findings; the as-written check is `Fields.MatchesPhonePattern`).
- `Fields.FormatDate`: pads the year to four digits. With the C library's `strftime`, `%Y` for a year below 1000 may print fewer digits; such a year needs a clock set before year 1000.
- The default `days=7` of `get_upcoming_birthdays` (task_01.py:76): the model's query always takes `days` as an argument. A call without it is the query with `days` equal to 7.
- Arguments of other types. A phone or birthday that is not a string raises a `TypeError` in the program. A float `days` is accepted: `timedelta(days=7.5)` is 7 days and 12 hours, and `date + timedelta` adds only the whole-day part, rounded down (`7.5` acts as `7`, `-0.5` as `-1`). The model's signatures take strings and an integer `days`, which covers the float case through that rounded-down value.
- `Calendar.FromOrdinal`: finds the date with a given day count by searching years and months upward. CPython uses a 400/100/4-year cycle computation. The two agree on every day count, because both are the inverse of the same count.
- A `timedelta` of more than 999999999 days raises `OverflowError` inside `timedelta` itself. The model reports `DateOverflow` for any sum outside the calendar, which covers it with the same error.

## Findings

| source | as written | input that shows it | evidently intended | confidence | as-written member | corrected member |
|---|---|---|---|---|---|---|
| task_01.py:17-18 | `re.match(r'^\d{10}$', value)`: `$` also matches just before a final newline, so an eleven-character value passes | `"0123456789\n"` is accepted and stored as a phone | only values of exactly ten digits pass ("Must be 10 digits") | high; not executed | `Fields.MatchesPhonePattern`, `Fields.PhonePatternAcceptsNewline` | `Fields.ValidatePhone` |
