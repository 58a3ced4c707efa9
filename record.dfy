/**
 * A contact record: a name fixed at construction, an ordered list of phones (duplicates
 * allowed) and an optional birthday. The phone operations act on the first phone whose
 * value equals the argument.
 */
module Records {
  import opened Results
  import opened Calendar
  import opened Fields

  /** The position of the first phone whose value is v, if any. */
  function FirstIndex(s: seq<Phone>, v: string): (r: Option<nat>)
    ensures r.None? <==> forall j :: 0 <= j < |s| ==> s[j].value != v
    ensures r.Some? ==> r.value < |s| && s[r.value].value == v
                        && forall j :: 0 <= j < r.value ==> s[j].value != v
  {
    if s == [] then None
    else if s[0].value == v then Some(0)
    else match FirstIndex(s[1..], v)
      case None => None
      case Some(i) => Some(i + 1)
  }

  /** The list without its first phone whose value is v. */
  function RemoveFirst(s: seq<Phone>, v: string): seq<Phone>
  {
    if s == [] then []
    else if s[0].value == v then s[1..]
    else [s[0]] + RemoveFirst(s[1..], v)
  }

  /** The list with its first phone whose value is v replaced by p. */
  function ReplaceFirst(s: seq<Phone>, v: string, p: Phone): seq<Phone>
  {
    if s == [] then []
    else if s[0].value == v then [p] + s[1..]
    else [s[0]] + ReplaceFirst(s[1..], v, p)
  }

  /**
   * Removing takes out exactly the first match and keeps the other phones in order; with
   * no match the list is unchanged.
   */
  lemma {:induction false} RemoveFirstSpec(s: seq<Phone>, v: string)
    ensures FirstIndex(s, v).None? ==> RemoveFirst(s, v) == s
    ensures FirstIndex(s, v).Some? ==>
      var i := FirstIndex(s, v).value; RemoveFirst(s, v) == s[..i] + s[i + 1..]
  {
    match FirstIndex(s, v)
    case None => RemoveAbsent(s, v);
    case Some(i) => RemoveAt(s, v, i);
  }

  lemma {:induction false} RemoveAbsent(s: seq<Phone>, v: string)
    requires forall j :: 0 <= j < |s| ==> s[j].value != v
    ensures RemoveFirst(s, v) == s
  {
    if s != [] {
      assert s[0].value != v;
      RemoveAbsent(s[1..], v);
      assert [s[0]] + s[1..] == s;
    }
  }

  lemma {:induction false} RemoveAt(s: seq<Phone>, v: string, i: nat)
    requires i < |s| && s[i].value == v
    requires forall j :: 0 <= j < i ==> s[j].value != v
    ensures RemoveFirst(s, v) == s[..i] + s[i + 1..]
  {
    if i == 0 {
      assert s[..0] + s[1..] == s[1..];
    } else {
      var t := s[1..];
      assert s[0].value != v;
      RemoveAt(t, v, i - 1);
      assert s[..i] == [s[0]] + t[..i - 1];
      assert s[i + 1..] == t[i..];
    }
  }

  /** Removing drops one copy of the matching phone and nothing else. */
  lemma RemoveFirstMultiset(s: seq<Phone>, v: string)
    ensures FirstIndex(s, v).Some? ==> multiset(RemoveFirst(s, v)) == multiset(s) - multiset{Phone(v)}
    ensures FirstIndex(s, v).Some? ==> |RemoveFirst(s, v)| == |s| - 1
  {
    RemoveFirstSpec(s, v);
    if FirstIndex(s, v).Some? {
      var i := FirstIndex(s, v).value;
      assert s == s[..i] + [s[i]] + s[i + 1..];
      assert s[i] == Phone(v);
      assert multiset(s) == multiset(s[..i]) + multiset{Phone(v)} + multiset(s[i + 1..]);
      assert multiset(RemoveFirst(s, v)) == multiset(s[..i]) + multiset(s[i + 1..]);
    }
  }

  /**
   * Once the only phone with value v is removed, removing v again changes nothing: a phone
   * added once is gone after one removal.
   */
  lemma RemoveOnlyMatchTwice(s: seq<Phone>, v: string, i: nat)
    requires i < |s| && s[i].value == v
    requires forall j :: 0 <= j < |s| && j != i ==> s[j].value != v
    ensures RemoveFirst(RemoveFirst(s, v), v) == RemoveFirst(s, v)
    ensures forall j :: 0 <= j < |RemoveFirst(s, v)| ==> RemoveFirst(s, v)[j].value != v
  {
    RemoveAt(s, v, i);
    var t := s[..i] + s[i + 1..];
    forall j | 0 <= j < |t|
      ensures t[j].value != v
    {
      if j < i {
        assert t[j] == s[j];
      } else {
        assert t[j] == s[j + 1];
      }
    }
    RemoveAbsent(t, v);
  }

  /**
   * Replacing puts p at the position of the first match and keeps the length and every other
   * phone; with no match the list is unchanged.
   */
  lemma ReplaceFirstSpec(s: seq<Phone>, v: string, p: Phone)
    ensures FirstIndex(s, v).None? ==> ReplaceFirst(s, v, p) == s
    ensures FirstIndex(s, v).Some? ==> ReplaceFirst(s, v, p) == s[FirstIndex(s, v).value := p]
  {
    match FirstIndex(s, v)
    case None => ReplaceAbsent(s, v, p);
    case Some(i) => ReplaceAt(s, v, p, i);
  }

  lemma {:induction false} ReplaceAbsent(s: seq<Phone>, v: string, p: Phone)
    requires forall j :: 0 <= j < |s| ==> s[j].value != v
    ensures ReplaceFirst(s, v, p) == s
  {
    if s != [] {
      assert s[0].value != v;
      ReplaceAbsent(s[1..], v, p);
      assert [s[0]] + s[1..] == s;
    }
  }

  lemma {:induction false} ReplaceAt(s: seq<Phone>, v: string, p: Phone, i: nat)
    requires i < |s| && s[i].value == v
    requires forall j :: 0 <= j < i ==> s[j].value != v
    ensures ReplaceFirst(s, v, p) == s[i := p]
  {
    if i == 0 {
      assert [p] + s[1..] == s[0 := p];
    } else {
      var t := s[1..];
      assert s[0].value != v;
      ReplaceAt(t, v, p, i - 1);
      assert s[i := p] == [s[0]] + t[i - 1 := p];
    }
  }

  /** Taking one phone out of a list of valid phones leaves a list of valid phones. */
  lemma ValidAfterRemove(s: seq<Phone>, i: nat, t: seq<Phone>)
    requires i < |s| && forall j :: 0 <= j < |s| ==> ValidPhone(s[j].value)
    requires t == s[..i] + s[i + 1..]
    ensures forall j :: 0 <= j < |t| ==> ValidPhone(t[j].value)
  {
    forall j | 0 <= j < |t|
      ensures ValidPhone(t[j].value)
    {
      if j < i {
        assert t[j] == s[j];
      } else {
        assert t[j] == s[j + 1];
      }
    }
  }

  /** A slice of the text after a prefix is the same slice of that text. */
  lemma SliceAfterPrefix(prefix: string, t: string, a: int, b: int)
    requires 0 <= a <= b <= |t|
    ensures (prefix + t)[|prefix| + a .. |prefix| + b] == t[a..b]
  {
    assert forall i :: |prefix| <= i < |prefix| + |t| ==> (prefix + t)[i] == t[i - |prefix|];
  }

  /** The layout of JoinValidPhones, shifted by a prefix written before the phones. */
  lemma JoinedAfterPrefix(prefix: string, s: seq<Phone>)
    requires forall j :: 0 <= j < |s| ==> ValidPhone(s[j].value)
    ensures var t := prefix + JoinPhones(s);
      && |t| == |prefix| + (if s == [] then 0 else 12 * |s| - 2)
      && t[..|prefix|] == prefix
      && (forall k :: 0 <= k < |s| ==> t[|prefix| + 12 * k .. |prefix| + 12 * k + 10] == s[k].value)
      && (forall k :: 0 <= k < |s| - 1 ==> t[|prefix| + 12 * k + 10 .. |prefix| + 12 * k + 12] == "; ")
  {
    var joined := JoinPhones(s);
    var t := prefix + joined;
    assert t[..|prefix|] == prefix && |t| == |prefix| + |joined|;
    JoinValidPhones(s);
    forall k | 0 <= k < |s|
      ensures t[|prefix| + 12 * k .. |prefix| + 12 * k + 10] == s[k].value
    {
      SliceAfterPrefix(prefix, joined, 12 * k, 12 * k + 10);
    }
    forall k | 0 <= k < |s| - 1
      ensures t[|prefix| + 12 * k + 10 .. |prefix| + 12 * k + 12] == "; "
    {
      SliceAfterPrefix(prefix, joined, 12 * k + 10, 12 * k + 12);
    }
  }

  /** The phones rendered one after another, separated by "; ". */
  function JoinPhones(s: seq<Phone>): string
  {
    if s == [] then ""
    else if |s| == 1 then s[0].value
    else s[0].value + "; " + JoinPhones(s[1..])
  }

  /**
   * Valid phones are ten characters each, so the rendered list has a fixed layout: the k-th
   * phone sits at offset 12 * k, each but the last is followed by "; ", and the text can be
   * split back into the phones.
   */
  lemma {:induction false} JoinValidPhones(s: seq<Phone>)
    requires forall j :: 0 <= j < |s| ==> ValidPhone(s[j].value)
    ensures |JoinPhones(s)| == if s == [] then 0 else 12 * |s| - 2
    ensures forall k :: 0 <= k < |s| ==> JoinPhones(s)[12 * k .. 12 * k + 10] == s[k].value
    ensures forall k :: 0 <= k < |s| - 1 ==> JoinPhones(s)[12 * k + 10 .. 12 * k + 12] == "; "
  {
    if |s| > 1 {
      JoinValidPhones(s[1..]);
      var t := JoinPhones(s);
      var rest := JoinPhones(s[1..]);
      assert t == s[0].value + "; " + rest;
      forall k | 0 <= k < |s|
        ensures t[12 * k .. 12 * k + 10] == s[k].value
      {
        if k == 0 {
          assert t[..10] == s[0].value;
        } else {
          assert t[12 * k .. 12 * k + 10] == rest[12 * (k - 1) .. 12 * (k - 1) + 10];
          assert s[1..][k - 1] == s[k];
        }
      }
      forall k | 0 <= k < |s| - 1
        ensures t[12 * k + 10 .. 12 * k + 12] == "; "
      {
        if k == 0 {
          assert t[10..12] == "; ";
        } else {
          assert t[12 * k + 10 .. 12 * k + 12] == rest[12 * (k - 1) + 10 .. 12 * (k - 1) + 12];
        }
      }
    }
  }

  class Record {
    const name: string
    var phones: seq<Phone>
    var birthday: Option<Birthday>

    /** Every phone held passed validation; a birthday held is the parse of its text. */
    ghost predicate Valid()
      reads this
    {
      && (forall j :: 0 <= j < |phones| ==> ValidPhone(phones[j].value))
      && (birthday.Some? ==> ParseBirthday(birthday.value.value) == Success(birthday.value))
    }

    constructor (name: string)
      ensures Valid()
      ensures this.name == name && phones == [] && birthday == None
    {
      this.name := name;
      phones := [];
      birthday := None;
    }

    /** Validates the value and appends it; on a format error the record is unchanged. */
    method AddPhone(value: string) returns (r: Outcome)
      requires Valid()
      modifies this
      ensures Valid() && birthday == old(birthday)
      ensures r == ValidatePhone(value)
      ensures phones == if r.Pass? then old(phones) + [Phone(value)] else old(phones)
    {
      r := ValidatePhone(value);
      if r.Fail? {
        return;
      }
      phones := phones + [Phone(value)];
    }

    /** Removes the first phone equal to the value; does nothing when there is none. */
    method RemovePhone(value: string)
      requires Valid()
      modifies this
      ensures Valid() && birthday == old(birthday)
      ensures phones == RemoveFirst(old(phones), value)
    {
      var i := 0;
      while i < |phones|
        invariant 0 <= i <= |phones|
        invariant forall j :: 0 <= j < i ==> phones[j].value != value
      {
        if phones[i].value == value {
          RemoveAt(phones, value, i);
          ValidAfterRemove(phones, i, phones[..i] + phones[i + 1..]);
          phones := phones[..i] + phones[i + 1..];
          return;
        }
        i := i + 1;
      }
      RemoveAbsent(phones, value);
    }

    /**
     * Replaces the first phone equal to oldValue by newValue, in place. The new value is
     * validated only once a match is found; on a format error the record is unchanged.
     */
    method EditPhone(oldValue: string, newValue: string) returns (r: Outcome)
      requires Valid()
      modifies this
      ensures Valid() && birthday == old(birthday)
      ensures r == if FirstIndex(old(phones), oldValue).None? then Pass else ValidatePhone(newValue)
      ensures phones == if r.Pass? then ReplaceFirst(old(phones), oldValue, Phone(newValue)) else old(phones)
    {
      r := Pass;
      var i := 0;
      while i < |phones|
        invariant 0 <= i <= |phones|
        invariant forall j :: 0 <= j < i ==> phones[j].value != oldValue
      {
        if phones[i].value == oldValue {
          assert FirstIndex(phones, oldValue).Some?;
          r := ValidatePhone(newValue);
          if r.Fail? {
            return;
          }
          ReplaceAt(phones, oldValue, Phone(newValue), i);
          phones := phones[i := Phone(newValue)];
          return;
        }
        i := i + 1;
      }
      ReplaceAbsent(phones, oldValue, Phone(newValue));
    }

    /** The first phone whose value equals the argument, or None. */
    method FindPhone(value: string) returns (r: Option<Phone>)
      ensures r.None? <==> forall j :: 0 <= j < |phones| ==> phones[j].value != value
      ensures r.Some? ==> exists i :: 0 <= i < |phones| && r.value == phones[i] && r.value.value == value
                                      && forall j :: 0 <= j < i ==> phones[j].value != value
    {
      var i := 0;
      while i < |phones|
        invariant 0 <= i <= |phones|
        invariant forall j :: 0 <= j < i ==> phones[j].value != value
      {
        if phones[i].value == value {
          return Some(phones[i]);
        }
        i := i + 1;
      }
      return None;
    }

    /** Parses the text and sets it as the birthday; on a format error the old birthday stays. */
    method AddBirthday(value: string) returns (r: Outcome)
      requires Valid()
      modifies this
      ensures Valid() && phones == old(phones)
      ensures r == if ParseBirthday(value).Success? then Pass else Fail(DateFormat)
      ensures birthday == if r.Pass? then Some(ParseBirthday(value).value) else old(birthday)
    {
      var b := ParseBirthday(value);
      if b.Failure? {
        return Fail(b.error);
      }
      birthday := Some(b.value);
      r := Pass;
    }

    /** "Contact name: <name>, phones: <p1>; <p2>; ..." */
    function ToString(): (s: string)
      reads this
    {
      "Contact name: " + name + ", phones: " + JoinPhones(phones)
    }

    /**
     * The rendering of a record with valid phones: the fixed prefix with the name, then the
     * phones, twelve characters apart, phone k at offset 12 * k of the phone part and "; "
     * between consecutive phones.
     */
    lemma ToStringLayout()
      requires Valid()
      ensures var prefix := "Contact name: " + name + ", phones: ";
        && |ToString()| == |prefix| + (if phones == [] then 0 else 12 * |phones| - 2)
        && ToString()[..|prefix|] == prefix
        && (forall k :: 0 <= k < |phones| ==>
             ToString()[|prefix| + 12 * k .. |prefix| + 12 * k + 10] == phones[k].value)
        && (forall k :: 0 <= k < |phones| - 1 ==>
             ToString()[|prefix| + 12 * k + 10 .. |prefix| + 12 * k + 12] == "; ")
    {
      JoinedAfterPrefix("Contact name: " + name + ", phones: ", phones);
    }
  }
}
