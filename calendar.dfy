/**
 * Dates and timestamps. A stored `created_at` is a DateTime with integer
 * fields; Python compares datetimes chronologically, which for valid values
 * is the lexicographic order of (year, month, day, hour, minute, second,
 * microsecond). A `date_after` query value is read with the rules of
 * strptime(s, "%Y-%m-%d") and stands for the midnight instant of that day.
 */
module Calendar {
  import opened Optional
  import opened Text

  datatype Date = Date(year: int, month: int, day: int)

  datatype DateTime = DateTime(year: int, month: int, day: int,
                               hour: int, minute: int, second: int, microsecond: int)

  predicate IsLeapYear(y: int) { y % 4 == 0 && (y % 100 != 0 || y % 400 == 0) }

  function DaysInMonth(y: int, m: int): (n: int)
    requires 1 <= m <= 12
    ensures 28 <= n <= 31
    ensures n == 29 <==> m == 2 && IsLeapYear(y)
  {
    if m == 2 then (if IsLeapYear(y) then 29 else 28)
    else if m == 4 || m == 6 || m == 9 || m == 11 then 30
    else 31
  }

  /** A date Python's datetime.date accepts (MINYEAR 1, MAXYEAR 9999). */
  predicate ValidDate(d: Date) {
    1 <= d.year <= 9999 && 1 <= d.month <= 12 && 1 <= d.day <= DaysInMonth(d.year, d.month)
  }

  predicate ValidDateTime(t: DateTime) {
    ValidDate(DateOf(t)) && 0 <= t.hour < 24 && 0 <= t.minute < 60 && 0 <= t.second < 60
    && 0 <= t.microsecond < 1000000
  }

  function DateOf(t: DateTime): Date { Date(t.year, t.month, t.day) }

  /** datetime(y, m, d): the first instant of a day. */
  function Midnight(d: Date): (t: DateTime)
    ensures DateOf(t) == d
    ensures ValidDate(d) ==> ValidDateTime(t)
  {
    DateTime(d.year, d.month, d.day, 0, 0, 0, 0)
  }

  /** The comparison `a >= b` of two datetimes. */
  predicate AtOrAfter(a: DateTime, b: DateTime) {
    if a.year != b.year then a.year > b.year
    else if a.month != b.month then a.month > b.month
    else if a.day != b.day then a.day > b.day
    else if a.hour != b.hour then a.hour > b.hour
    else if a.minute != b.minute then a.minute > b.minute
    else if a.second != b.second then a.second > b.second
    else a.microsecond >= b.microsecond
  }

  /** `>=` on datetimes is a total order: reflexive, total, antisymmetric and transitive. */
  lemma AtOrAfterTotalOrder(a: DateTime, b: DateTime, c: DateTime)
    ensures AtOrAfter(a, a)
    ensures AtOrAfter(a, b) || AtOrAfter(b, a)
    ensures AtOrAfter(a, b) && AtOrAfter(b, a) ==> a == b
    ensures AtOrAfter(a, b) && AtOrAfter(b, c) ==> AtOrAfter(a, c)
  {
  }

  /** The comparison `a >= b` of two dates. */
  predicate DateOnOrAfter(a: Date, b: Date) {
    if a.year != b.year then a.year > b.year
    else if a.month != b.month then a.month > b.month
    else a.day >= b.day
  }

  /** Comparing against the midnight of `d` keeps every instant of day `d` itself. */
  lemma AtOrAfterMidnight(t: DateTime, d: Date)
    requires ValidDateTime(t)
    ensures AtOrAfter(t, Midnight(d)) <==> DateOnOrAfter(DateOf(t), d)
  {
  }

  // ---------------------------------------------------------------------
  // strptime(s, "%Y-%m-%d")
  //
  // CPython turns the format into the regular expression
  //   (?P<Y>\d\d\d\d)-(?P<m>1[0-2]|0[1-9]|[1-9])-(?P<d>3[01]|[12]\d|0[1-9]|[1-9]| [1-9])
  // matched at the start of s; any text left after the match is an error,
  // and so is a year 0 or a day past the end of its month.
  // ---------------------------------------------------------------------

  predicate IsNonZeroDigit(c: char) { '1' <= c <= '9' }

  /**
   * The %m group followed by the literal '-': the value and the number of
   * characters of the group. Only one alternative can be followed by '-'.
   */
  function MonthField(s: string): (r: Option<(int, nat)>)
    ensures r.Some? ==> 1 <= r.value.0 <= 12 && 1 <= r.value.1 <= 2
    ensures r.Some? ==> r.value.1 < |s| && s[r.value.1] == '-' && AllDigits(s[..r.value.1])
    ensures r.Some? ==> r.value.0 == DigitsValue(s[..r.value.1])
  {
    if |s| >= 3 && s[0] == '1' && '0' <= s[1] <= '2' && s[2] == '-' then
      assert s[..2][..1] == [s[0]] && [s[0]][..0] == [];
      assert DigitsValue([s[0]]) == 1;
      Some((10 + DigitValue(s[1]), 2))
    else if |s| >= 3 && s[0] == '0' && IsNonZeroDigit(s[1]) && s[2] == '-' then
      assert s[..2][..1] == [s[0]] && [s[0]][..0] == [];
      Some((DigitValue(s[1]), 2))
    else if |s| >= 2 && IsNonZeroDigit(s[0]) && s[1] == '-' then
      assert s[..1][..0] == [];
      Some((DigitValue(s[0]), 1))
    else None
  }

  /**
   * The %d group as the whole rest of the string. The first alternative that
   * matches is taken and nothing may follow it, so the rest must be exactly
   * one of the strings the group spells.
   */
  function DayField(s: string): (r: Option<int>)
    ensures r.Some? ==> 1 <= r.value <= 31
    ensures r.Some? ==>
      || (|s| == 1 && IsDigit(s[0]) && r.value == DigitValue(s[0]))
      || (|s| == 2 && s[0] == ' ' && IsDigit(s[1]) && r.value == DigitValue(s[1]))
      || (|s| == 2 && AllDigits(s) && r.value == DigitsValue(s))
  {
    if |s| == 1 && IsNonZeroDigit(s[0]) then Some(DigitValue(s[0]))
    else if |s| == 2 && s[0] == ' ' && IsNonZeroDigit(s[1]) then Some(DigitValue(s[1]))
    else if |s| == 2 && s[0] == '0' && IsNonZeroDigit(s[1]) then TwoDigits(s); Some(DigitValue(s[1]))
    else if |s| == 2 && (s[0] == '1' || s[0] == '2') && IsDigit(s[1]) then TwoDigits(s); Some(DigitsValue(s))
    else if |s| == 2 && s[0] == '3' && (s[1] == '0' || s[1] == '1') then TwoDigits(s); Some(DigitsValue(s))
    else None
  }

  /** datetime.strptime(s, "%Y-%m-%d"), None standing for the ValueError. */
  function ParseDate(s: string): (r: Option<Date>)
    ensures r.Some? ==> ValidDate(r.value)
    ensures r.Some? ==> |s| >= 5 && AllDigits(s[..4]) && s[4] == '-' && r.value.year == DigitsValue(s[..4])
    ensures r.Some? ==> var m := MonthField(s[5..]);
      m.Some? && r.value.month == m.value.0 && DayField(s[6 + m.value.1..]) == Some(r.value.day)
  {
    if |s| < 5 || !AllDigits(s[..4]) || s[4] != '-' then None
    else
      var year := DigitsValue(s[..4]);
      match MonthField(s[5..])
      case None => None
      case Some((month, len)) =>
        match DayField(s[5 + len + 1..])
        case None => None
        case Some(day) =>
          var d := Date(year, month, day);
          if ValidDate(d) then Some(d) else None
  }

  /** The zero-padded "YYYY-MM-DD" spelling of a date. */
  function IsoDate(d: Date): (s: string)
    requires ValidDate(d)
    ensures |s| == 10 && s[4] == '-' && s[7] == '-'
  {
    Pad4(d.year) + "-" + Pad2(d.month) + "-" + Pad2(d.day)
  }

  /** Every valid date written as "YYYY-MM-DD" is read back as itself. */
  lemma ParseIsoDate(d: Date)
    requires ValidDate(d)
    ensures ParseDate(IsoDate(d)) == Some(d)
  {
    var s := IsoDate(d);
    var y, m, dd := Pad4(d.year), Pad2(d.month), Pad2(d.day);
    assert s[..4] == y && s[5..] == m + "-" + dd && s[8..] == dd;
    assert MonthField(s[5..]) == Some((d.month, 2)) by {
      assert m[..1] == [m[0]] && [m[0]][..0] == [];
    }
    assert DayField(s[8..]) == Some(d.day) by {
      assert dd[..1] == [dd[0]] && [dd[0]][..0] == [];
    }
  }

  /** strptime also takes a one-digit month and day. */
  lemma ParseDateUnpadded()
    ensures ParseDate("2024-1-5") == Some(Date(2024, 1, 5))
  {
    assert Pad4(2024) == "2024";
    assert "2024-1-5"[..4] == "2024" && "2024-1-5"[5..] == "1-5" && "1-5"[2..] == "5";
  }

  /** strptime takes a day padded with a space. */
  lemma ParseDateSpacePadded()
    ensures ParseDate("2024-01- 5") == Some(Date(2024, 1, 5))
  {
    assert Pad4(2024) == "2024";
    assert "2024-01- 5"[..4] == "2024" && "2024-01- 5"[5..] == "01- 5" && "01- 5"[3..] == " 5";
  }

  /** A day past the end of its month is refused. */
  lemma ParseDateRejectsDayOutOfMonth()
    ensures ParseDate("2023-02-29") == None
  {
    assert "2023-02-29"[5..] == "02-29" && "02-29"[3..] == "29";
  }

  /** Year 0 is outside datetime's range. */
  lemma ParseDateRejectsYearZero()
    ensures ParseDate("0000-01-01") == None
  {
    assert Pad4(0) == "0000";
    assert "0000-01-01"[..4] == "0000";
  }

  /** Text that is not a date, and a date followed by more digits, are refused. */
  lemma ParseDateRejectsMalformed()
    ensures ParseDate("not-a-date") == None
    ensures ParseDate("2024-01-015") == None
  {
    assert "not-a-date"[0] == 'n' && !AllDigits("not-a-date"[..4]);
    assert "2024-01-015"[5..] == "01-015" && "01-015"[3..] == "015";
  }

  // ---------------------------------------------------------------------
  // strftime("%Y-%m-%d %H:%M:%S")
  // ---------------------------------------------------------------------

  /** The display form of a timestamp; microseconds are not shown. */
  function FormatDateTime(t: DateTime): (r: string)
    requires ValidDateTime(t)
    ensures |r| == 19
    ensures r[4] == '-' && r[7] == '-' && r[10] == ' ' && r[13] == ':' && r[16] == ':'
    ensures AllDigits(r[0..4]) && AllDigits(r[5..7]) && AllDigits(r[8..10])
    ensures AllDigits(r[11..13]) && AllDigits(r[14..16]) && AllDigits(r[17..19])
  {
    Pad4(t.year) + "-" + Pad2(t.month) + "-" + Pad2(t.day) + " "
    + Pad2(t.hour) + ":" + Pad2(t.minute) + ":" + Pad2(t.second)
  }

  /** Each field of the timestamp can be read back from its place in the display form. */
  lemma FormatDateTimeReadBack(t: DateTime)
    requires ValidDateTime(t)
    ensures var r := FormatDateTime(t);
      && DigitsValue(r[0..4]) == t.year && DigitsValue(r[5..7]) == t.month
      && DigitsValue(r[8..10]) == t.day && DigitsValue(r[11..13]) == t.hour
      && DigitsValue(r[14..16]) == t.minute && DigitsValue(r[17..19]) == t.second
  {
    var r := FormatDateTime(t);
    var date := Pad4(t.year) + "-" + Pad2(t.month) + "-" + Pad2(t.day);
    var time := Pad2(t.hour) + ":" + Pad2(t.minute) + ":" + Pad2(t.second);
    assert r == date + " " + time;
    assert r[..10] == date && r[11..] == time;
    assert date[0..4] == Pad4(t.year);
    assert date[5..7] == Pad2(t.month);
    assert date[8..10] == Pad2(t.day);
    assert time[0..2] == Pad2(t.hour);
    assert time[3..5] == Pad2(t.minute);
    assert time[6..8] == Pad2(t.second);
    assert r[0..4] == date[0..4] && r[5..7] == date[5..7] && r[8..10] == date[8..10];
    assert r[11..13] == time[0..2] && r[14..16] == time[3..5] && r[17..19] == time[6..8];
  }
}
