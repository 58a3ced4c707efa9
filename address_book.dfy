/**
 * The address book: records keyed by their name, in insertion order, with insert-or-overwrite,
 * lookup, delete and the upcoming-birthday query.
 */
module AddressBooks {
  import opened Results
  import opened Calendar
  import opened Fields
  import opened Records
  import opened OrderedMaps
  import opened Birthdays

  /** What the birthday query reads from a record. */
  function PersonOf(r: Record): Person
    reads r
  {
    Person(r.name, if r.birthday.Some? then Some(r.birthday.value.date) else None)
  }

  /** The records under the given keys, in that order, as the query reads them. */
  function PeopleOf(keys: seq<string>, items: map<string, Record>): seq<Person>
    requires forall k :: k in keys ==> k in items
    reads items.Values
  {
    if keys == [] then []
    else PeopleOf(keys[..|keys| - 1], items) + [PersonOf(items[keys[|keys| - 1]])]
  }

  class AddressBook {
    var data: OrderedMap<Record>

    /** The map is well formed and every record is filed under its own name. */
    ghost predicate Valid()
      reads this
    {
      && OrderedMaps.Valid(data)
      && forall k :: k in data.items ==> data.items[k].name == k
    }

    constructor ()
      ensures Valid() && data == Empty()
    {
      data := Empty();
    }

    /**
     * The records in iteration order, as the query reads them: person i is the name and birthday
     * of the record under key i, and carries that key as its name, so the names are distinct.
     */
    function People(): (r: seq<Person>)
      requires Valid()
      reads this, data.items.Values
      ensures |r| == |data.keys|
      ensures forall i :: 0 <= i < |r| ==> r[i] == PersonOf(data.items[data.keys[i]])
      ensures forall i :: 0 <= i < |r| ==> r[i].name == data.keys[i]
      ensures forall i, j :: 0 <= i < j < |r| ==> r[i].name != r[j].name
    {
      PeopleOfNames(data.keys, data.items);
      PeopleOf(data.keys, data.items)
    }

    /** Files the record under its name, replacing any record of that name. */
    method AddRecord(record: Record)
      requires Valid()
      modifies this
      ensures Valid()
      ensures data == Put(old(data), record.name, record)
    {
      PutValid(data, record.name, record);
      data := Put(data, record.name, record);
    }

    /** The record filed under the name, or None; never raises. */
    method Find(name: string) returns (r: Option<Record>)
      requires Valid()
      ensures r == Get(data, name)
      ensures r.Some? ==> r.value.name == name
    {
      r := Get(data, name);
    }

    /** Deletes the record filed under the name; raises a key error when there is none. */
    method Delete(name: string) returns (r: Outcome)
      requires Valid()
      modifies this
      ensures Valid()
      ensures r == if name in old(data.items) then Pass else Fail(KeyNotFound(name))
      ensures data == if r.Pass? then Remove(old(data), name) else old(data)
    {
      if name !in data.items {
        return Fail(KeyNotFound(name));
      }
      RemoveValid(data, name);
      data := Remove(data, name);
      r := Pass;
    }

    /**
     * For every record with a birthday, its next occurrence from today; those within
     * [today, today + days] are listed with the date to congratulate on, moved from a weekend
     * to the following Monday.
     */
    method GetUpcomingBirthdays(today: Date, days: int) returns (r: Result<seq<Greeting>>)
      requires Valid() && ValidDate(today)
      ensures r == Upcoming(People(), today, days)
      ensures r.Success? ==> forall k, l :: 0 <= k < l < |r.value| ==> r.value[k].name != r.value[l].name
    {
      var window := AddDays(today, days);
      if window.Failure? {
        return Failure(window.error);
      }
      r := CollectGreetings(window.value, today);
      if r.Success? {
        UpcomingDistinctNames(People(), today, days);
      }
    }

    /** The loop of the query over the records in iteration order, for a window ending on end. */
    method CollectGreetings(end: Date, today: Date) returns (r: Result<seq<Greeting>>)
      requires Valid() && ValidDate(today) && ValidDate(end)
      ensures r == Collect(People(), today, end)
    {
      var keys := data.keys;
      var greetings: seq<Greeting> := [];
      var i := 0;
      while i < |keys|
        invariant 0 <= i <= |keys|
        invariant Collect(PeopleOf(keys[..i], data.items), today, end) == Success(greetings)
      {
        var record := data.items[keys[i]];
        CollectNext(keys, i, data.items, today, end);
        var entry := Entry(record, today, end);
        if entry.Failure? {
          FailureStops(keys, i + 1, data.items, today, end);
          return Failure(entry.error);
        }
        if entry.value.Some? {
          greetings := greetings + [entry.value.value];
        }
        i := i + 1;
      }
      assert keys[..i] == keys;
      r := Success(greetings);
    }
  }

  /**
   * A record's entry in the query: none without a birthday; otherwise the error of building
   * the birthday's occurrence, or none when it lies after the window, or the record's name with
   * a DD.MM.YYYY date that reads back as a weekday in [today, end + 2].
   */
  method Entry(record: Record, today: Date, end: Date) returns (r: Result<Option<Greeting>>)
    requires ValidDate(today) && ValidDate(end)
    ensures r == Greets(PersonOf(record), today, end)
    ensures r.Failure? <==> record.birthday.Some? && Occurrence(record.birthday.value.date, today).Failure?
    ensures r.Success? && r.value.Some? ==>
      && record.birthday.Some? && r.value.value.name == record.name
      && ParseDate(r.value.value.congratulationDate).Success?
      && var c := ParseDate(r.value.value.congratulationDate).value;
         Weekday(c) < 5 && ToOrdinal(today) <= ToOrdinal(c) <= ToOrdinal(end) + 2
  {
    if record.birthday.None? {
      return Success(None);
    }
    var congratulation := Congratulate(record.birthday.value.date, today, end);
    if congratulation.Failure? {
      return Failure(congratulation.error);
    }
    if congratulation.value.None? {
      return Success(None);
    }
    r := Success(Some(Greeting(record.name, FormatDate(congratulation.value.value))));
    GreetingEntry(PersonOf(record), today, end, r.value.value);
  }

  /**
   * One record's step of the query: this year's date of the birthday, moved to the next year
   * when it has passed; nothing when it lies after the window's end; otherwise that date,
   * moved from a weekend to the following Monday.
   */
  method Congratulate(birthday: Date, today: Date, end: Date) returns (r: Result<Option<Date>>)
    requires ValidDate(today) && ValidDate(end)
    ensures r == CongratulationFor(birthday, today, end)
    ensures r.Failure? <==> Occurrence(birthday, today).Failure?
    ensures r == Success(None) <==>
              Occurrence(birthday, today).Success? && ToOrdinal(end) < ToOrdinal(Occurrence(birthday, today).value)
    ensures r.Success? && r.value.Some? ==>
      var occ, c := Occurrence(birthday, today).value, r.value.value;
      && ToOrdinal(today) <= ToOrdinal(occ) <= ToOrdinal(end)
      && ValidDate(c) && Weekday(c) < 5 && ToOrdinal(today) <= ToOrdinal(c)
      && (Weekday(occ) < 5 ==> c == occ)
      && (Weekday(occ) == 5 ==> Weekday(c) == 0 && ToOrdinal(c) == ToOrdinal(occ) + 2)
      && (Weekday(occ) == 6 ==> Weekday(c) == 0 && ToOrdinal(c) == ToOrdinal(occ) + 1)
  {
    var occurrence := NextOccurrence(birthday, today);
    if occurrence.Failure? {
      r := Failure(occurrence.error);
    } else if Before(end, occurrence.value) {
      r := Success(None);
    } else {
      var weekday := Weekday(occurrence.value);
      if weekday >= 5 {
        var monday := AddDays(occurrence.value, 7 - weekday);
        r := if monday.Failure? then Failure(monday.error) else Success(Some(monday.value));
      } else {
        r := Success(Some(occurrence.value));
      }
    }
    CongratulationOutcome(birthday, today, end);
    if r.Success? && r.value.Some? {
      CongratulationDate(birthday, today, end);
    }
  }

  /**
   * The birthday's month and day in today's year, or in the next year when that date has
   * passed; building either date can fail.
   */
  method NextOccurrence(birthday: Date, today: Date) returns (r: Result<Date>)
    requires ValidDate(today)
    ensures r == Occurrence(birthday, today)
    ensures r.Success? ==>
      && ValidDate(r.value) && r.value.month == birthday.month && r.value.day == birthday.day
      && ToOrdinal(today) <= ToOrdinal(r.value)
      && (r.value.year == today.year || (r.value.year == today.year + 1 && Before(Date(today.year, birthday.month, birthday.day), today)))
  {
    var thisYear := MakeDate(today.year, birthday.month, birthday.day);
    if thisYear.Failure? {
      return Failure(thisYear.error);
    }
    r := thisYear;
    if Before(thisYear.value, today) {
      r := MakeDate(today.year + 1, birthday.month, birthday.day);
    }
    if r.Success? {
      OccurrenceSpec(birthday, today);
    }
  }

  /** The query over one more key extends the query so far by that key's record's entry. */
  lemma CollectNext(keys: seq<string>, i: nat, items: map<string, Record>, today: Date, end: Date)
    requires forall k :: k in keys ==> k in items
    requires ValidDate(today) && ValidDate(end) && i < |keys|
    ensures Collect(PeopleOf(keys[..i + 1], items), today, end) ==
      match Collect(PeopleOf(keys[..i], items), today, end)
      case Failure(e) => Failure(e)
      case Success(gs) =>
        match Greets(PersonOf(items[keys[i]]), today, end)
        case Failure(e) => Failure(e)
        case Success(None) => Success(gs)
        case Success(Some(g)) => Success(gs + [g])
  {
    assert keys[..i + 1][..i] == keys[..i];
    assert PeopleOf(keys[..i + 1], items) == PeopleOf(keys[..i], items) + [PersonOf(items[keys[i]])];
    CollectStep(PeopleOf(keys[..i], items), PersonOf(items[keys[i]]), today, end);
  }

  /** Once the records up to n have produced an error, the whole query ends with it. */
  lemma FailureStops(keys: seq<string>, n: nat, items: map<string, Record>, today: Date, end: Date)
    requires forall k :: k in keys ==> k in items
    requires ValidDate(today) && ValidDate(end) && n <= |keys|
    requires Collect(PeopleOf(keys[..n], items), today, end).Failure?
    ensures Collect(PeopleOf(keys, items), today, end) == Collect(PeopleOf(keys[..n], items), today, end)
  {
    PeopleOfPrefix(keys, n, items);
    var people := PeopleOf(keys, items);
    var rs := seq(|people|, i requires 0 <= i < |people| => Greets(people[i], today, end));
    var prefix := people[..n];
    assert rs[..n] == seq(|prefix|, i requires 0 <= i < |prefix| => Greets(prefix[i], today, end));
    GatherFailurePrefix(rs, n);
  }

  /** Person i is what the query reads from the record under key i, and carries that key as its name. */
  lemma {:induction false} PeopleOfNames(keys: seq<string>, items: map<string, Record>)
    requires forall k :: k in keys ==> k in items && items[k].name == k
    ensures |PeopleOf(keys, items)| == |keys|
    ensures forall i :: 0 <= i < |keys| ==> PeopleOf(keys, items)[i] == PersonOf(items[keys[i]])
    ensures forall i :: 0 <= i < |keys| ==> PeopleOf(keys, items)[i].name == keys[i]
  {
    if keys != [] {
      var m := |keys| - 1;
      PeopleOfNames(keys[..m], items);
      assert forall i :: 0 <= i < m ==> keys[..m][i] == keys[i];
    }
  }

  lemma {:induction false} PeopleOfPrefix(keys: seq<string>, n: nat, items: map<string, Record>)
    requires forall k :: k in keys ==> k in items
    requires n <= |keys|
    ensures |PeopleOf(keys, items)| == |keys|
    ensures PeopleOf(keys[..n], items) == PeopleOf(keys, items)[..n]
    decreases |keys|
  {
    if keys != [] {
      var m := |keys| - 1;
      PeopleOfPrefix(keys[..m], if n < |keys| then n else m, items);
      if n < |keys| {
        assert keys[..m][..n] == keys[..n];
      } else {
        assert keys[..n] == keys;
      }
    }
  }
}
