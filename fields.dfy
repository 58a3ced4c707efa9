/**
 * The contact's field values: a phone number, checked to be ten digits, and a birthday,
 * parsed from the day.month.year text the program accepts. Also the DD.MM.YYYY rendering
 * of a date that the birthday query prints.
 */
module Fields {
  import opened Results
  import opened Calendar

  /** A phone field; the value is kept verbatim. */
  datatype Phone = Phone(value: string)

  /** A birthday field: the text it was built from and the date parsed from it. */
  datatype Birthday = Birthday(value: string, date: Date)

  predicate IsDigit(c: char) {
    '0' <= c <= '9'
  }

  function DigitValue(c: char): int
    requires IsDigit(c)
  {
    c as int - '0' as int
  }

  function DigitChar(n: int): char
    requires 0 <= n <= 9
  {
    ('0' as int + n) as char
  }

  predicate AllDigits(s: string) {
    forall i :: 0 <= i < |s| ==> IsDigit(s[i])
  }

  // ---------------------------------------------------------------- phones

  /** A phone number is valid when it is exactly ten decimal digits. */
  predicate ValidPhone(s: string) {
    |s| == 10 && AllDigits(s)
  }

  /**
   * What the pattern ^\d{10}$ accepts under re.match: ten digits at the start, then the end of
   * the text, or a single final newline, since '$' also matches just before one.
   */
  predicate MatchesPhonePattern(s: string) {
    && |s| >= 10
    && (forall i :: 0 <= i < 10 ==> '0' <= s[i] <= '9')
    && (|s| == 10 || (|s| == 11 && s[10] == '\n'))
  }

  /** The pattern lets an eleven-character value with a trailing newline through. */
  lemma PhonePatternAcceptsNewline()
    ensures MatchesPhonePattern("0123456789\n")
    ensures !ValidPhone("0123456789\n")
  {
  }

  /** Apart from that trailing newline, the pattern and the intended check agree. */
  lemma PhonePatternAgrees(s: string)
    requires |s| == 0 || s[|s| - 1] != '\n'
    ensures MatchesPhonePattern(s) <==> ValidPhone(s)
  {
  }

  /** The pattern accepts exactly the valid numbers and the valid numbers followed by "\n". */
  lemma PhonePatternAccepts(s: string)
    ensures MatchesPhonePattern(s) <==>
              ValidPhone(s) || (|s| == 11 && s[10] == '\n' && ValidPhone(s[..10]))
  {
    if |s| == 11 && ValidPhone(s[..10]) {
      assert forall i :: 0 <= i < 10 ==> s[..10][i] == s[i];
    }
  }

  /** Phone validation: passes on a valid number, raises a format error otherwise. */
  function ValidatePhone(value: string): (r: Outcome)
    ensures r.Pass? <==> |value| == 10 && forall i :: 0 <= i < |value| ==> '0' <= value[i] <= '9'
    ensures r.Fail? ==> r.error == PhoneFormat
  {
    if ValidPhone(value) then Pass else Fail(PhoneFormat)
  }

  // ------------------------------------------------------------- birthdays

  /** A day field as strptime's %d reads it: 3[01], [12]\d, 0[1-9], [1-9] or a space and [1-9]. */
  predicate IsDayField(f: string) {
    || (|f| == 1 && '1' <= f[0] <= '9')
    || (|f| == 2 && f[0] == '3' && (f[1] == '0' || f[1] == '1'))
    || (|f| == 2 && (f[0] == '1' || f[0] == '2') && IsDigit(f[1]))
    || (|f| == 2 && (f[0] == '0' || f[0] == ' ') && '1' <= f[1] <= '9')
  }

  /** A month field as strptime's %m reads it: 1[0-2], 0[1-9] or [1-9]. */
  predicate IsMonthField(f: string) {
    || (|f| == 1 && '1' <= f[0] <= '9')
    || (|f| == 2 && f[0] == '1' && '0' <= f[1] <= '2')
    || (|f| == 2 && f[0] == '0' && '1' <= f[1] <= '9')
  }

  /** A year field as strptime's %Y reads it: exactly four digits. */
  predicate IsYearField(f: string) {
    |f| == 4 && AllDigits(f)
  }

  /** The number a one- or two-character day or month field denotes (a leading space counts as 0). */
  function SmallFieldValue(f: string): int
    requires IsDayField(f) || IsMonthField(f)
  {
    if |f| == 1 then DigitValue(f[0])
    else (if f[0] == ' ' then 0 else 10 * DigitValue(f[0])) + DigitValue(f[1])
  }

  function YearValue(f: string): int
    requires IsYearField(f)
  {
    1000 * DigitValue(f[0]) + 100 * DigitValue(f[1]) + 10 * DigitValue(f[2]) + DigitValue(f[3])
  }

  /**
   * Parsing "%d.%m.%Y": the text must be a day field, a dot, a month field, a dot and a year
   * field with nothing left over, and the three numbers must form a real date.
   */
  function ParseDate(s: string): (r: Result<Date>)
    ensures r.Success? ==> ValidDate(r.value)
    ensures r.Failure? ==> r.error == DateFormat
  {
    var i := if |s| > 1 && s[1] == '.' then 1 else 2;
    if !(i < |s| && s[i] == '.' && IsDayField(s[..i])) then Failure(DateFormat)
    else
      var rest := s[i + 1..];
      var j := if |rest| > 1 && rest[1] == '.' then 1 else 2;
      if !(j < |rest| && rest[j] == '.' && IsMonthField(rest[..j])) then Failure(DateFormat)
      else if !IsYearField(rest[j + 1..]) then Failure(DateFormat)
      else
        match MakeDate(YearValue(rest[j + 1..]), SmallFieldValue(rest[..j]), SmallFieldValue(s[..i]))
        case Success(d) => Success(d)
        case Failure(_) => Failure(DateFormat)
  }

  /**
   * Parsing a day field, a dot, a month field, a dot and a year field succeeds exactly when the
   * numbers the fields denote form a real date, and then yields that date.
   */
  lemma ParseFields(d: string, m: string, y: string)
    requires IsDayField(d) && IsMonthField(m) && IsYearField(y)
    ensures var date := Date(YearValue(y), SmallFieldValue(m), SmallFieldValue(d));
      && (ParseDate(d + "." + m + "." + y).Success? <==> ValidDate(date))
      && (ParseDate(d + "." + m + "." + y).Success? ==> ParseDate(d + "." + m + "." + y).value == date)
  {
    var s := d + "." + m + "." + y;
    var rest := m + "." + y;
    assert d[|d| - 1] != '.' && m[|m| - 1] != '.';
    SplitAtDot(s, d, rest);
    SplitAtDot(rest, m, y);
    var date := Date(YearValue(y), SmallFieldValue(m), SmallFieldValue(d));
    assert ParseDate(s) == match MakeDate(date.year, date.month, date.day)
      case Success(e) => Success(e)
      case Failure(_) => Failure(DateFormat);
  }

  /** Text made of a field of one or two non-dot characters, a dot and more is split there. */
  lemma SplitAtDot(s: string, f: string, rest: string)
    requires 1 <= |f| <= 2 && f[|f| - 1] != '.' && s == f + "." + rest
    ensures (if |s| > 1 && s[1] == '.' then 1 else 2) == |f|
    ensures s[..|f|] == f && s[|f|] == '.' && s[|f| + 1..] == rest
  {
    assert s[..|f|] == f;
    assert s[|f| + 1..] == rest;
  }

  /** Text that parses is a day field, a dot, a month field, a dot and a year field. */
  lemma ParseShape(s: string) returns (d: string, m: string, y: string)
    requires ParseDate(s).Success?
    ensures IsDayField(d) && IsMonthField(m) && IsYearField(y)
    ensures s == d + "." + m + "." + y
    ensures ParseDate(s).value == Date(YearValue(y), SmallFieldValue(m), SmallFieldValue(d))
  {
    var i := if |s| > 1 && s[1] == '.' then 1 else 2;
    var rest := s[i + 1..];
    var j := if |rest| > 1 && rest[1] == '.' then 1 else 2;
    d, m, y := s[..i], rest[..j], rest[j + 1..];
    assert rest == m + "." + y;
    assert s == d + "." + rest;
  }

  /** A one-digit day and month are read as %d and %m read them. */
  lemma OneDigitFieldsParse()
    ensures ParseDate("5.7.2024") == Success(Date(2024, 7, 5))
  {
    ParseFields("5", "7", "2024");
    assert "5" + "." + "7" + "." + "2024" == "5.7.2024";
    assert YearValue("2024") == 2024 && SmallFieldValue("7") == 7 && SmallFieldValue("5") == 5;
  }

  /** A day written as a space and a digit is read as %d reads it. */
  lemma SpacePaddedDayParses()
    ensures ParseDate(" 5.07.2024") == Success(Date(2024, 7, 5))
  {
    ParseFields(" 5", "07", "2024");
    assert " 5" + "." + "07" + "." + "2024" == " 5.07.2024";
    assert YearValue("2024") == 2024 && SmallFieldValue("07") == 7 && SmallFieldValue(" 5") == 5;
  }

  /** A month written as a space and a digit is not a %m field, so the text does not parse. */
  lemma SpacePaddedMonthFails()
    ensures ParseDate("01. 1.2024") == Failure(DateFormat)
  {
  }

  /** Building a Birthday: the parse either yields the field or raises a format error. */
  function ParseBirthday(value: string): (r: Result<Birthday>)
    ensures r.Success? <==> ParseDate(value).Success?
    ensures r.Success? ==> r.value.value == value && r.value.date == ParseDate(value).value
    ensures r.Failure? ==> r.error == DateFormat
  {
    match ParseDate(value)
    case Success(d) => Success(Birthday(value, d))
    case Failure(e) => Failure(e)
  }

  // -------------------------------------------------- the DD.MM.YYYY form

  function Pad2(n: int): (s: string)
    requires 0 <= n < 100
  {
    [DigitChar(n / 10), DigitChar(n % 10)]
  }

  function Pad4(n: int): (s: string)
    requires 0 <= n < 10000
  {
    Pad2(n / 100) + Pad2(n % 100)
  }

  /** strftime("%d.%m.%Y") of a date: zero-padded day and month, four-digit year. */
  function FormatDate(d: Date): (s: string)
    requires ValidDate(d)
  {
    Pad2(d.day) + "." + Pad2(d.month) + "." + Pad4(d.year)
  }

  lemma Pad2Digits(n: int)
    requires 0 <= n < 100
    ensures |Pad2(n)| == 2 && IsDigit(Pad2(n)[0]) && IsDigit(Pad2(n)[1])
    ensures 10 * DigitValue(Pad2(n)[0]) + DigitValue(Pad2(n)[1]) == n
  {
  }

  lemma Pad4Digits(n: int)
    requires 0 <= n < 10000
    ensures |Pad4(n)| == 4 && AllDigits(Pad4(n))
    ensures 1000 * DigitValue(Pad4(n)[0]) + 100 * DigitValue(Pad4(n)[1])
          + 10 * DigitValue(Pad4(n)[2]) + DigitValue(Pad4(n)[3]) == n
  {
    var hi, lo := n / 100, n % 100;
    Pad2Digits(hi);
    Pad2Digits(lo);
    assert Pad4(n)[..2] == Pad2(hi) && Pad4(n)[2..] == Pad2(lo);
    assert n == 100 * hi + lo;
  }

  /** Text in the canonical DD.MM.YYYY shape: digits everywhere except dots at 2 and 5. */
  predicate IsCanonical(s: string) {
    && |s| == 10 && s[2] == '.' && s[5] == '.'
    && IsDigit(s[0]) && IsDigit(s[1]) && IsDigit(s[3]) && IsDigit(s[4])
    && IsDigit(s[6]) && IsDigit(s[7]) && IsDigit(s[8]) && IsDigit(s[9])
  }

  /** The date the fields of canonical text spell out, whether or not it exists. */
  function CanonicalFields(s: string): Date
    requires IsCanonical(s)
  {
    Date(
      1000 * DigitValue(s[6]) + 100 * DigitValue(s[7]) + 10 * DigitValue(s[8]) + DigitValue(s[9]),
      10 * DigitValue(s[3]) + DigitValue(s[4]),
      10 * DigitValue(s[0]) + DigitValue(s[1]))
  }

  /** Formatting always yields canonical text whose fields are the date's own. */
  lemma FormatDateCanonical(d: Date)
    requires ValidDate(d)
    ensures IsCanonical(FormatDate(d)) && CanonicalFields(FormatDate(d)) == d
  {
    var dd, mm, yyyy := Pad2(d.day), Pad2(d.month), Pad4(d.year);
    Pad2Digits(d.day);
    Pad2Digits(d.month);
    Pad4Digits(d.year);
    var s := FormatDate(d);
    assert s == [dd[0], dd[1], '.', mm[0], mm[1], '.', yyyy[0], yyyy[1], yyyy[2], yyyy[3]];
  }

  /**
   * On canonical text, parsing succeeds exactly when the spelled-out date exists, and then
   * yields that date.
   */
  lemma ParseCanonical(s: string)
    requires IsCanonical(s)
    ensures ParseDate(s).Success? <==> ValidDate(CanonicalFields(s))
    ensures ParseDate(s).Success? ==> ParseDate(s).value == CanonicalFields(s)
  {
    var rest := s[3..];
    assert s[..2] == [s[0], s[1]];
    assert rest[..2] == [s[3], s[4]];
    assert rest[3..] == [s[6], s[7], s[8], s[9]];
  }

  /** Round trip: the printed form of a date parses back to the date. */
  lemma ParseFormatRoundTrip(d: Date)
    requires ValidDate(d)
    ensures ParseDate(FormatDate(d)) == Success(d)
  {
    FormatDateCanonical(d);
    ParseCanonical(FormatDate(d));
  }

  /** Round trip: canonical text that parses prints back to the same text. */
  lemma FormatParseRoundTrip(s: string)
    requires IsCanonical(s) && ParseDate(s).Success?
    ensures FormatDate(ParseDate(s).value) == s
  {
    ParseCanonical(s);
    var d := ParseDate(s).value;
    FormatDateCanonical(d);
    var t := FormatDate(d);
    DigitsDetermined(t, s);
  }

  /** Two canonical texts that spell out the same fields are the same text. */
  lemma DigitsDetermined(t: string, s: string)
    requires IsCanonical(t) && IsCanonical(s) && CanonicalFields(t) == CanonicalFields(s)
    ensures t == s
  {
    DigitPairDetermined(t[0], t[1], s[0], s[1]);
    DigitPairDetermined(t[3], t[4], s[3], s[4]);
    DigitPairDetermined(t[6], t[7], s[6], s[7]);
    DigitPairDetermined(t[8], t[9], s[8], s[9]);
    assert 100 * DigitValue(t[6]) + 10 * DigitValue(t[7]) == 100 * DigitValue(s[6]) + 10 * DigitValue(s[7]);
    assert forall k :: 0 <= k < 10 ==> t[k] == s[k];
  }

  lemma DigitPairDetermined(a: char, b: char, c: char, e: char)
    requires IsDigit(a) && IsDigit(b) && IsDigit(c) && IsDigit(e)
    requires 10 * DigitValue(a) + DigitValue(b) == 10 * DigitValue(c) + DigitValue(e)
    ensures a == c && b == e
  {
  }
}
