/**
 * Worked queries over a one-record book: a weekday birthday, a weekend birthday moved to
 * Monday, a birthday outside the window, a year roll-over and a Feb 29 that cannot roll over.
 * The dates are passed in as parameters fixed by the preconditions, so that the calendar
 * arithmetic is done on the ordinals stated in each body.
 */
module Scenarios {
  import opened Results
  import opened Calendar
  import opened Fields
  import opened Birthdays

  /** Combining a single outcome. */
  lemma GatherOne(r: Result<Option<Greeting>>)
    ensures Gather([r]) ==
      match r
      case Failure(e) => Failure(e)
      case Success(None) => Success([])
      case Success(Some(g)) => Success([g])
  {
    assert [r][..0] == [];
    assert Gather([r][..0]) == Success([]);
    match r
    case Success(Some(g)) => assert [] + [g] == [g];
    case _ =>
  }

  /** The query over one person is that person's entry, for the window ending days after today. */
  lemma QueryOfOne(p: Person, today: Date, days: int, end: Date)
    requires ValidDate(today) && ValidDate(end) && ToOrdinal(end) == ToOrdinal(today) + days
    ensures Upcoming([p], today, days) == Gather([Greets(p, today, end)])
  {
    AddDaysLandsOn(today, days, end);
    var rs := seq(1, i requires 0 <= i < 1 => Greets([p][i], today, end));
    assert rs == [Greets(p, today, end)];
  }

  /**
   * An occurrence inside the window is congratulated on c: the occurrence itself on a weekday,
   * the Monday after it on a weekend.
   */
  lemma EntryDate(b: Date, today: Date, end: Date, occ: Date, c: Date)
    requires ValidDate(today) && ValidDate(end) && Occurrence(b, today) == Success(occ)
    requires ValidDate(occ) && ValidDate(c) && !Before(end, occ)
    requires ToOrdinal(c) == ToOrdinal(occ) + (if Weekday(occ) >= 5 then 7 - Weekday(occ) else 0)
    ensures CongratulationFor(b, today, end) == Success(Some(c))
  {
    if Weekday(occ) >= 5 {
      AddDaysLandsOn(occ, 7 - Weekday(occ), c);
    } else {
      BeforeIffOrdinalLess(c, occ);
    }
  }

  /** A one-person query whose occurrence lies in the window lists that person once. */
  lemma OneEntry(p: Person, today: Date, days: int, end: Date, occ: Date, c: Date)
    requires ValidDate(today) && ValidDate(end) && ToOrdinal(end) == ToOrdinal(today) + days
    requires p.birthday.Some? && Occurrence(p.birthday.value, today) == Success(occ)
    requires ValidDate(occ) && ValidDate(c) && !Before(end, occ)
    requires ToOrdinal(c) == ToOrdinal(occ) + (if Weekday(occ) >= 5 then 7 - Weekday(occ) else 0)
    ensures Upcoming([p], today, days) == Success([Greeting(p.name, FormatDate(c))])
  {
    EntryDate(p.birthday.value, today, end, occ, c);
    QueryOfOne(p, today, days, end);
    GatherOne(Greets(p, today, end));
  }

  /** A one-person query whose occurrence lies after the window lists nobody. */
  lemma NoEntry(p: Person, today: Date, days: int, end: Date, occ: Date)
    requires ValidDate(today) && ValidDate(end) && ToOrdinal(end) == ToOrdinal(today) + days
    requires p.birthday.Some? && Occurrence(p.birthday.value, today) == Success(occ)
    requires Before(end, occ)
    ensures Upcoming([p], today, days) == Success([])
  {
    QueryOfOne(p, today, days, end);
    GatherOne(Greets(p, today, end));
  }

  /** A one-person query whose occurrence cannot be built fails with that error. */
  lemma OneFailure(p: Person, today: Date, days: int, end: Date, e: Error)
    requires ValidDate(today) && ValidDate(end) && ToOrdinal(end) == ToOrdinal(today) + days
    requires p.birthday.Some? && Occurrence(p.birthday.value, today) == Failure(e)
    ensures Upcoming([p], today, days) == Failure(e)
  {
    QueryOfOne(p, today, days, end);
    GatherOne(Greets(p, today, end));
  }

  /** John's birthday, Tuesday 30 July 2024, seen on Thursday 25 July with a 7-day window. */
  lemma WeekdayBirthday(today: Date, birthday: Date, end: Date)
    requires today == Date(2024, 7, 25) && birthday == Date(2024, 7, 30) && end == Date(2024, 8, 1)
    ensures Upcoming([Person("John", Some(birthday))], today, 7) == Success([Greeting("John", "30.07.2024")])
  {
    assert ToOrdinal(today) == 739092;
    assert ToOrdinal(end) == 739099;
    assert ToOrdinal(birthday) == 739097;
    assert Weekday(birthday) == 1;
    assert Occurrence(birthday, today) == Success(birthday);
    assert FormatDate(birthday) == "30.07.2024";
    OneEntry(Person("John", Some(birthday)), today, 7, end, birthday, birthday);
  }

  /** A birthday on Saturday 27 July 2024 is congratulated on Monday 29 July. */
  lemma SaturdayBirthday(today: Date, birthday: Date, occ: Date, monday: Date, end: Date)
    requires today == Date(2024, 7, 25) && birthday == Date(1990, 7, 27) && end == Date(2024, 8, 1)
    requires occ == Date(2024, 7, 27) && monday == Date(2024, 7, 29)
    ensures Upcoming([Person("Jane", Some(birthday))], today, 7) == Success([Greeting("Jane", "29.07.2024")])
  {
    assert ToOrdinal(today) == 739092;
    assert ToOrdinal(end) == 739099;
    assert ToOrdinal(occ) == 739094;
    assert ToOrdinal(monday) == 739096;
    assert Weekday(occ) == 5;
    assert Occurrence(birthday, today) == Success(occ);
    assert FormatDate(monday) == "29.07.2024";
    OneEntry(Person("Jane", Some(birthday)), today, 7, end, occ, monday);
  }

  /**
   * A birthday on Saturday 3 August 2024, the last day of a window opened on Saturday 27 July,
   * is listed for Monday 5 August, after the window has closed.
   */
  lemma ShiftLeavesWindow(today: Date, birthday: Date, monday: Date)
    requires today == Date(2024, 7, 27) && birthday == Date(2024, 8, 3) && monday == Date(2024, 8, 5)
    ensures Upcoming([Person("Max", Some(birthday))], today, 7) == Success([Greeting("Max", "05.08.2024")])
  {
    assert ToOrdinal(today) == 739094;
    assert ToOrdinal(birthday) == 739101;
    assert ToOrdinal(monday) == 739103;
    assert Weekday(birthday) == 5;
    assert Occurrence(birthday, today) == Success(birthday);
    assert FormatDate(monday) == "05.08.2024";
    OneEntry(Person("Max", Some(birthday)), today, 7, birthday, birthday, monday);
  }

  /** A birthday two weeks away is not listed by a 7-day query. */
  lemma BirthdayAfterWindow(today: Date, birthday: Date, occ: Date, end: Date)
    requires today == Date(2024, 7, 25) && birthday == Date(1985, 8, 15) && end == Date(2024, 8, 1)
    requires occ == Date(2024, 8, 15)
    ensures Upcoming([Person("Kim", Some(birthday))], today, 7) == Success([])
  {
    assert ToOrdinal(today) == 739092;
    assert ToOrdinal(end) == 739099;
    assert Occurrence(birthday, today) == Success(occ);
    NoEntry(Person("Kim", Some(birthday)), today, 7, end, occ);
  }

  /** Seen on 30 December 2025, a 1 January birthday rolls over to Thursday 1 January 2026. */
  lemma NewYearBirthday(today: Date, birthday: Date, occ: Date, end: Date)
    requires today == Date(2025, 12, 30) && birthday == Date(2000, 1, 1) && end == Date(2026, 1, 6)
    requires occ == Date(2026, 1, 1)
    ensures Upcoming([Person("Ann", Some(birthday))], today, 7) == Success([Greeting("Ann", "01.01.2026")])
  {
    assert ToOrdinal(today) == 739615;
    assert ToOrdinal(end) == 739622;
    assert ToOrdinal(occ) == 739617;
    assert Weekday(occ) == 3;
    assert Occurrence(birthday, today) == Success(occ);
    assert FormatDate(occ) == "01.01.2026";
    OneEntry(Person("Ann", Some(birthday)), today, 7, end, occ, occ);
  }

  /** Seen on 1 March 2024, a Feb 29 birthday has passed and 2025 has no Feb 29: the query fails. */
  lemma LeapDayAfterFebruary(today: Date, birthday: Date, end: Date)
    requires today == Date(2024, 3, 1) && birthday == Date(2000, 2, 29) && end == Date(2024, 3, 8)
    ensures Upcoming([Person("Leo", Some(birthday))], today, 7) == Failure(DayOutOfRange)
  {
    assert ToOrdinal(today) == 738946;
    assert ToOrdinal(end) == 738953;
    assert Occurrence(birthday, today) == Failure(DayOutOfRange);
    OneFailure(Person("Leo", Some(birthday)), today, 7, end, DayOutOfRange);
  }
}
