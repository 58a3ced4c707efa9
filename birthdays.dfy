/**
 * The upcoming-birthday query, as a function of the contacts in the book's iteration order,
 * today's date and the length of the look-ahead window.
 */
module Birthdays {
  import opened Results
  import opened Calendar
  import opened Fields

  /** What the query reads from a record: its name and its birthday's date, if it has one. */
  datatype Person = Person(name: string, birthday: Option<Date>)

  /** One entry of the result: who to congratulate, and on which day (as DD.MM.YYYY). */
  datatype Greeting = Greeting(name: string, congratulationDate: string)

  /**
   * The birthday's month and day placed in today's year, or in the next year when that date
   * has already passed. Building either date can fail (a Feb 29 in a common year, year 10000).
   */
  function Occurrence(birthday: Date, today: Date): Result<Date>
    requires ValidDate(today)
  {
    match MakeDate(today.year, birthday.month, birthday.day)
    case Failure(e) => Failure(e)
    case Success(thisYear) =>
      if Before(thisYear, today) then MakeDate(today.year + 1, birthday.month, birthday.day)
      else Success(thisYear)
  }

  /**
   * An occurrence has the birthday's month and day, is not before today, and lies in today's
   * year unless that year's date has already passed, in which case it lies in the next year.
   */
  lemma OccurrenceSpec(birthday: Date, today: Date)
    requires ValidDate(today) && Occurrence(birthday, today).Success?
    ensures var occ := Occurrence(birthday, today).value;
      && ValidDate(occ) && occ.month == birthday.month && occ.day == birthday.day
      && !Before(occ, today) && ToOrdinal(today) <= ToOrdinal(occ)
      && (occ.year == today.year || (occ.year == today.year + 1 && Before(Date(today.year, birthday.month, birthday.day), today)))
  {
    var occ := Occurrence(birthday, today).value;
    BeforeIffOrdinalLess(occ, today);
  }

  /**
   * For a birthday that is a real date, building the occurrence fails exactly when it is a
   * Feb 29 and this year is common, or when this year's date has passed and the next year is
   * 10000 or, for a Feb 29, is common.
   */
  lemma OccurrenceFailure(birthday: Date, today: Date)
    requires ValidDate(birthday) && ValidDate(today)
    ensures var leapDay := birthday.month == 2 && birthday.day == 29;
      Occurrence(birthday, today).Failure? <==>
        || (leapDay && !IsLeapYear(today.year))
        || (Before(Date(today.year, birthday.month, birthday.day), today)
            && (today.year == MaxYear || (leapDay && !IsLeapYear(today.year + 1))))
  {
  }

  /**
   * A Feb 29 birthday makes the query fail unless today falls in a leap year on or before
   * that year's Feb 29: after it, next year is common.
   */
  lemma LeapDayOccurrence(birthday: Date, today: Date)
    requires ValidDate(today) && birthday.month == 2 && birthday.day == 29
    ensures Occurrence(birthday, today).Success? <==>
              IsLeapYear(today.year) && !Before(Date(today.year, 2, 29), today)
  {
    if IsLeapYear(today.year) {
      assert !IsLeapYear(today.year + 1);
    }
  }

  /**
   * The congratulation date for one birthday: none when the occurrence falls after the end of
   * the window, the occurrence itself on a weekday, the following Monday on a weekend.
   */
  function CongratulationFor(birthday: Date, today: Date, end: Date): Result<Option<Date>>
    requires ValidDate(today) && ValidDate(end)
  {
    match Occurrence(birthday, today)
    case Failure(e) => Failure(e)
    case Success(occ) =>
      if Before(end, occ) then Success(None)
      else if Weekday(occ) >= 5 then
        match AddDays(occ, 7 - Weekday(occ))
        case Failure(e) => Failure(e)
        case Success(monday) => Success(Some(monday))
      else Success(Some(occ))
  }

  /**
   * Only building the occurrence can fail; the weekend shift never does. There is a date
   * exactly when the occurrence is within the window.
   */
  lemma CongratulationOutcome(birthday: Date, today: Date, end: Date)
    requires ValidDate(today) && ValidDate(end)
    ensures CongratulationFor(birthday, today, end).Failure? <==> Occurrence(birthday, today).Failure?
    ensures CongratulationFor(birthday, today, end) == Success(None) <==>
              Occurrence(birthday, today).Success? && ToOrdinal(end) < ToOrdinal(Occurrence(birthday, today).value)
  {
    match Occurrence(birthday, today)
    case Failure(_) =>
    case Success(occ) =>
      OccurrenceSpec(birthday, today);
      BeforeIffOrdinalLess(end, occ);
      if Weekday(occ) >= 5 {
        WeekendShiftLandsOnMonday(occ);
      }
  }

  /**
   * A congratulation date belongs to an occurrence inside [today, end]; it is a weekday, never
   * before today, equal to the occurrence on a weekday, and the next Monday (two days on from
   * a Saturday, one from a Sunday) on a weekend.
   */
  lemma CongratulationDate(birthday: Date, today: Date, end: Date)
    requires ValidDate(today) && ValidDate(end)
    requires CongratulationFor(birthday, today, end).Success?
    requires CongratulationFor(birthday, today, end).value.Some?
    ensures Occurrence(birthday, today).Success?
    ensures var occ := Occurrence(birthday, today).value;
            var c := CongratulationFor(birthday, today, end).value.value;
      && ToOrdinal(today) <= ToOrdinal(occ) <= ToOrdinal(end)
      && ValidDate(c) && Weekday(c) < 5 && ToOrdinal(today) <= ToOrdinal(c)
      && (Weekday(occ) < 5 ==> c == occ)
      && (Weekday(occ) == 5 ==> Weekday(c) == 0 && ToOrdinal(c) == ToOrdinal(occ) + 2)
      && (Weekday(occ) == 6 ==> Weekday(c) == 0 && ToOrdinal(c) == ToOrdinal(occ) + 1)
  {
    var occ := Occurrence(birthday, today).value;
    OccurrenceSpec(birthday, today);
    BeforeIffOrdinalLess(end, occ);
    if Weekday(occ) >= 5 {
      WeekendShiftLandsOnMonday(occ);
    }
  }

  /** The entry one person contributes: none without a birthday or outside the window. */
  function Greets(p: Person, today: Date, end: Date): Result<Option<Greeting>>
    requires ValidDate(today) && ValidDate(end)
  {
    if p.birthday.None? then Success(None)
    else match CongratulationFor(p.birthday.value, today, end)
      case Failure(e) => Failure(e)
      case Success(None) => Success(None)
      case Success(Some(c)) => Success(Some(Greeting(p.name, FormatDate(c))))
  }

  /**
   * Combining per-person outcomes in order: the first failure is the error, otherwise the
   * present entries in order.
   */
  function Gather(rs: seq<Result<Option<Greeting>>>): Result<seq<Greeting>>
  {
    if rs == [] then Success([])
    else
      match Gather(rs[..|rs| - 1])
      case Failure(e) => Failure(e)
      case Success(gs) =>
        match rs[|rs| - 1]
        case Failure(e) => Failure(e)
        case Success(None) => Success(gs)
        case Success(Some(g)) => Success(gs + [g])
  }

  /** The entries of all people in order; the first person whose entry fails decides the error. */
  function Collect(people: seq<Person>, today: Date, end: Date): Result<seq<Greeting>>
    requires ValidDate(today) && ValidDate(end)
  {
    Gather(seq(|people|, i requires 0 <= i < |people| => Greets(people[i], today, end)))
  }

  /** The query: the window ends days after today, which itself must be a representable date. */
  function Upcoming(people: seq<Person>, today: Date, days: int): Result<seq<Greeting>>
    requires ValidDate(today)
  {
    match AddDays(today, days)
    case Failure(e) => Failure(e)
    case Success(end) => Collect(people, today, end)
  }

  /** Collecting one more person extends the collection by that person's entry. */
  lemma CollectStep(people: seq<Person>, p: Person, today: Date, end: Date)
    requires ValidDate(today) && ValidDate(end)
    ensures Collect(people + [p], today, end) ==
      match Collect(people, today, end)
      case Failure(e) => Failure(e)
      case Success(gs) =>
        match Greets(p, today, end)
        case Failure(e) => Failure(e)
        case Success(None) => Success(gs)
        case Success(Some(g)) => Success(gs + [g])
  {
    var rs := seq(|people + [p]|, i requires 0 <= i < |people + [p]| => Greets((people + [p])[i], today, end));
    assert rs[..|people|] == seq(|people|, i requires 0 <= i < |people| => Greets(people[i], today, end));
  }

  /** A failure in a prefix is the failure of the whole sequence. */
  lemma {:induction false} GatherFailurePrefix(rs: seq<Result<Option<Greeting>>>, n: nat)
    requires n <= |rs| && Gather(rs[..n]).Failure?
    ensures Gather(rs) == Gather(rs[..n])
    decreases |rs| - n
  {
    if n < |rs| {
      var m := |rs| - 1;
      assert rs[..m][..n] == rs[..n];
      GatherFailurePrefix(rs[..m], n);
    } else {
      assert rs[..n] == rs;
    }
  }

  /** Combining fails exactly when some outcome is a failure. */
  lemma {:induction false} GatherFailure(rs: seq<Result<Option<Greeting>>>)
    ensures Gather(rs).Failure? <==> exists i :: 0 <= i < |rs| && rs[i].Failure?
  {
    if rs != [] {
      var m := |rs| - 1;
      GatherFailure(rs[..m]);
      assert forall i :: 0 <= i < m ==> rs[..m][i] == rs[i];
    }
  }

  /**
   * Where each combined entry comes from: idx[k] is the position of the outcome that gave
   * entry k. The positions strictly increase, and every present entry is among them.
   */
  lemma {:induction false} GatherOrigins(rs: seq<Result<Option<Greeting>>>) returns (idx: seq<nat>)
    requires Gather(rs).Success?
    ensures |idx| == |Gather(rs).value| <= |rs|
    ensures forall k, l :: 0 <= k < l < |idx| ==> idx[k] < idx[l]
    ensures forall k :: 0 <= k < |idx| ==> idx[k] < |rs| && rs[idx[k]] == Success(Some(Gather(rs).value[k]))
    ensures forall i :: 0 <= i < |rs| && rs[i].Success? && rs[i].value.Some? ==> i in idx
  {
    if rs == [] {
      idx := [];
    } else {
      var m := |rs| - 1;
      var init := rs[..m];
      var prev := GatherOrigins(init);
      var before := Gather(init).value;
      assert forall i :: 0 <= i < m ==> init[i] == rs[i];
      if rs[m].value.None? {
        idx := prev;
      } else {
        var gs := Gather(rs).value;
        assert gs == before + [rs[m].value.value];
        idx := prev + [m];
        assert forall k :: 0 <= k < |prev| ==> idx[k] == prev[k] && gs[k] == before[k];
      }
    }
  }

  /** The collection fails exactly when some person's entry fails. */
  lemma CollectFailure(people: seq<Person>, today: Date, end: Date)
    requires ValidDate(today) && ValidDate(end)
    ensures Collect(people, today, end).Failure? <==>
              exists i :: 0 <= i < |people| && Greets(people[i], today, end).Failure?
  {
    var rs := seq(|people|, i requires 0 <= i < |people| => Greets(people[i], today, end));
    GatherFailure(rs);
    assert forall i :: 0 <= i < |people| ==> rs[i] == Greets(people[i], today, end);
  }

  /**
   * Where each entry of a successful collection comes from: idx[k] is the position of the
   * person who contributed entry k. The positions strictly increase (at most one entry per
   * person, in the people's order), and every person with an entry is among them.
   */
  lemma CollectOrigins(people: seq<Person>, today: Date, end: Date) returns (idx: seq<nat>)
    requires ValidDate(today) && ValidDate(end)
    requires Collect(people, today, end).Success?
    ensures |idx| == |Collect(people, today, end).value| <= |people|
    ensures forall k, l :: 0 <= k < l < |idx| ==> idx[k] < idx[l]
    ensures forall k :: 0 <= k < |idx| ==>
              idx[k] < |people| && Greets(people[idx[k]], today, end) == Success(Some(Collect(people, today, end).value[k]))
    ensures forall i :: 0 <= i < |people| && Greets(people[i], today, end).Success? && Greets(people[i], today, end).value.Some? ==>
              i in idx
  {
    var rs := seq(|people|, i requires 0 <= i < |people| => Greets(people[i], today, end));
    idx := GatherOrigins(rs);
    assert forall i :: 0 <= i < |people| ==> rs[i] == Greets(people[i], today, end);
  }

  /**
   * An entry names a person with a birthday, and its date text reads back as a weekday that
   * is not before today and at most two days past the end of the window.
   */
  lemma GreetingEntry(p: Person, today: Date, end: Date, g: Greeting)
    requires ValidDate(today) && ValidDate(end)
    requires Greets(p, today, end) == Success(Some(g))
    ensures p.birthday.Some? && g.name == p.name
    ensures ParseDate(g.congratulationDate).Success?
    ensures var c := ParseDate(g.congratulationDate).value;
            Weekday(c) < 5 && ToOrdinal(today) <= ToOrdinal(c) <= ToOrdinal(end) + 2
  {
    var b := p.birthday.value;
    CongratulationDate(b, today, end);
    var c := CongratulationFor(b, today, end).value.value;
    ParseFormatRoundTrip(c);
  }

  /**
   * Where every entry of a successful query comes from and what it says: idx[k] is the position
   * of the record that gave entry k. The positions strictly increase, so each record gives at
   * most one entry, in iteration order. That record has a birthday and the entry's name, and the
   * entry's date text reads back as a weekday that is not before today and at most two days
   * past the window.
   */
  lemma UpcomingEntries(people: seq<Person>, today: Date, days: int) returns (idx: seq<nat>)
    requires ValidDate(today) && Upcoming(people, today, days).Success?
    ensures |idx| == |Upcoming(people, today, days).value| <= |people|
    ensures forall k, l :: 0 <= k < l < |idx| ==> idx[k] < idx[l]
    ensures forall k :: 0 <= k < |idx| ==>
              var g := Upcoming(people, today, days).value[k];
              && idx[k] < |people| && people[idx[k]].birthday.Some? && g.name == people[idx[k]].name
              && ParseDate(g.congratulationDate).Success?
              && var c := ParseDate(g.congratulationDate).value;
                 Weekday(c) < 5 && ToOrdinal(today) <= ToOrdinal(c) <= ToOrdinal(today) + days + 2
  {
    var end := AddDays(today, days).value;
    var gs := Collect(people, today, end).value;
    idx := CollectOrigins(people, today, end);
    forall k | 0 <= k < |gs|
      ensures people[idx[k]].birthday.Some? && gs[k].name == people[idx[k]].name
      ensures ParseDate(gs[k].congratulationDate).Success?
      ensures var c := ParseDate(gs[k].congratulationDate).value;
              Weekday(c) < 5 && ToOrdinal(today) <= ToOrdinal(c) <= ToOrdinal(today) + days + 2
    {
      GreetingEntry(people[idx[k]], today, end, gs[k]);
    }
  }

  /** People with distinct names get entries with distinct names: one entry per person at most. */
  lemma UpcomingDistinctNames(people: seq<Person>, today: Date, days: int)
    requires ValidDate(today) && Upcoming(people, today, days).Success?
    requires forall i, j :: 0 <= i < j < |people| ==> people[i].name != people[j].name
    ensures var gs := Upcoming(people, today, days).value;
            forall k, l :: 0 <= k < l < |gs| ==> gs[k].name != gs[l].name
  {
    var end := AddDays(today, days).value;
    var gs := Collect(people, today, end).value;
    var idx := CollectOrigins(people, today, end);
    forall k, l | 0 <= k < l < |gs| ensures gs[k].name != gs[l].name {
      GreetingEntry(people[idx[k]], today, end, gs[k]);
      GreetingEntry(people[idx[l]], today, end, gs[l]);
    }
  }
}
