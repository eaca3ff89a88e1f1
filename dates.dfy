/**
 * Calendar dates and the two end-of-life date formats of the release-cycle
 * data: `YYYY-MM-DD`, read by `dt.date.fromisoformat`, and `YYYY-MM`, read
 * as the first day of that month.
 */
module Dates {
  import opened Wrappers
  import opened Text

  /** A `dt.date`; ordered as Python orders dates, year first. */
  datatype Date = Date(year: int, month: int, day: int)

  predicate IsLeapYear(y: int) {
    y % 4 == 0 && (y % 100 != 0 || y % 400 == 0)
  }

  function DaysInMonth(y: int, m: int): (n: int)
    requires 1 <= m <= 12
    ensures 28 <= n <= 31
  {
    if m == 2 then (if IsLeapYear(y) then 29 else 28)
    else if m == 4 || m == 6 || m == 9 || m == 11 then 30
    else 31
  }

  /** The dates `dt.date` can represent: years 1 to 9999 of the Gregorian calendar. */
  predicate ValidDate(d: Date) {
    1 <= d.year <= 9999 && 1 <= d.month <= 12 && 1 <= d.day <= DaysInMonth(d.year, d.month)
  }

  /** `a <= b` on dates. */
  predicate DateLe(a: Date, b: Date) {
    a.year < b.year || (a.year == b.year && (a.month < b.month || (a.month == b.month && a.day <= b.day)))
  }

  /** The exceptions date parsing raises, by cause. */
  datatype DateError =
    | UnknownFormat        // `ValueError`: neither two nor three `-`-separated parts
    | InvalidIsoFormat     // `ValueError`: three parts, but not `YYYY-MM-DD`
    | InvalidInteger(part: string)  // `ValueError`: `int()` refused a part of `YYYY-MM`
    | Overflow             // `OverflowError`: a field does not fit in a C `int`
    | OutOfRange           // `ValueError`: no such calendar date

  /** The range of a C `int`, which `dt.date` converts each field to first. */
  predicate InCInt(x: int) {
    -0x8000_0000 <= x < 0x8000_0000
  }

  /** `dt.date(year, month, day)`. */
  function MakeDate(year: int, month: int, day: int): (r: Result<Date, DateError>)
    ensures r.Ok? <==> ValidDate(Date(year, month, day))
    ensures r.Ok? ==> r.value == Date(year, month, day)
    ensures !(InCInt(year) && InCInt(month) && InCInt(day)) ==> r == Err(Overflow)
    ensures InCInt(year) && InCInt(month) && InCInt(day) && !ValidDate(Date(year, month, day)) ==> r == Err(OutOfRange)
  {
    if !(InCInt(year) && InCInt(month) && InCInt(day)) then Err(Overflow)
    else if ValidDate(Date(year, month, day)) then Ok(Date(year, month, day))
    else Err(OutOfRange)
  }

  /**
   * `dt.date.fromisoformat` on a string with three `-`-separated parts: four,
   * two and two ASCII digits naming a calendar date.  Its fields are at most
   * four digits, so only the calendar check can fail after the shape check.
   */
  function FromIsoFormat(parts: seq<string>): (r: Result<Date, DateError>)
    requires |parts| == 3
    ensures r.Ok? ==> ValidDate(r.value) && FormatIsoDate(r.value) == parts[0] + "-" + parts[1] + "-" + parts[2]
    ensures r.Err? ==> r.error == InvalidIsoFormat || r.error == OutOfRange
    ensures r.Err? && r.error == InvalidIsoFormat ==>
      !(|parts[0]| == 4 && |parts[1]| == 2 && |parts[2]| == 2 && IsDigits(parts[0]) && IsDigits(parts[1]) && IsDigits(parts[2]))
    ensures !(|parts[0]| == 4 && |parts[1]| == 2 && |parts[2]| == 2 && IsDigits(parts[0]) && IsDigits(parts[1]) && IsDigits(parts[2]))
      ==> r == Err(InvalidIsoFormat)
  {
    if |parts[0]| == 4 && |parts[1]| == 2 && |parts[2]| == 2
       && IsDigits(parts[0]) && IsDigits(parts[1]) && IsDigits(parts[2])
    then
      var y, m, d := ParseNat(parts[0]).value, ParseNat(parts[1]).value, ParseNat(parts[2]).value;
      assert PadNat(y, 4) == parts[0] && PadNat(m, 2) == parts[1] && PadNat(d, 2) == parts[2];
      if ValidDate(Date(y, m, d)) then Ok(Date(y, m, d)) else Err(OutOfRange)
    else Err(InvalidIsoFormat)
  }

  /** `year, month = (int(c) for c in parts)` followed by `dt.date(year, month, 1)`. */
  function FromYearMonth(parts: seq<string>): (r: Result<Date, DateError>)
    requires |parts| == 2
    ensures r.Ok? ==> ParseNat(parts[0]) == Some(r.value.year) && ParseNat(parts[1]) == Some(r.value.month)
    ensures r.Ok? ==> r.value.day == 1 && ValidDate(r.value)
    ensures ParseNat(parts[0]).None? ==> r == Err(InvalidInteger(parts[0]))
    ensures ParseNat(parts[0]).Some? && ParseNat(parts[1]).None? ==> r == Err(InvalidInteger(parts[1]))
    ensures ParseNat(parts[0]).Some? && ParseNat(parts[1]).Some? ==>
      r == MakeDate(ParseNat(parts[0]).value, ParseNat(parts[1]).value, 1)
  {
    match ParseNat(parts[0])
    case None => Err(InvalidInteger(parts[0]))
    case Some(year) =>
      match ParseNat(parts[1])
      case None => Err(InvalidInteger(parts[1]))
      case Some(month) => MakeDate(year, month, 1)
  }

  /** `_parse_eol_date`. */
  function ParseEolDate(s: string): (r: Result<Date, DateError>)
    ensures r.Ok? ==> ValidDate(r.value)
    ensures r.Ok? && |Split(s, '-')| == 3 ==> FormatIsoDate(r.value) == s
    ensures r.Ok? && |Split(s, '-')| == 2 ==>
      && r.value.day == 1
      && ParseNat(Split(s, '-')[0]) == Some(r.value.year)
      && ParseNat(Split(s, '-')[1]) == Some(r.value.month)
    ensures |Split(s, '-')| != 2 && |Split(s, '-')| != 3 ==> r == Err(UnknownFormat)
  {
    var parts := Split(s, '-');
    if |parts| == 3 then
      assert parts[1..][1..] == [parts[2]];
      assert Join(parts[1..][1..], '-') == parts[2];
      assert Join(parts[1..], '-') == parts[1] + ['-'] + parts[2];
      assert Join(parts, '-') == parts[0] + ['-'] + (parts[1] + ['-'] + parts[2]);
      assert s == parts[0] + "-" + parts[1] + "-" + parts[2];
      FromIsoFormat(parts)
    else if |parts| == 2 then FromYearMonth(parts)
    else Err(UnknownFormat)
  }

  /** `date.isoformat()`: `YYYY-MM-DD`. */
  function FormatIsoDate(d: Date): string
    requires ValidDate(d)
  {
    PadNat(d.year, 4) + "-" + PadNat(d.month, 2) + "-" + PadNat(d.day, 2)
  }

  lemma SplitThree(a: string, b: string, c: string)
    requires IsDigits(a) && IsDigits(b) && IsDigits(c)
    ensures Split(a + "-" + b + "-" + c, '-') == [a, b, c]
  {
    assert '-' !in a && '-' !in b && '-' !in c;
    assert a + "-" + b + "-" + c == a + ['-'] + (b + ['-'] + c);
    SplitAtSeparator(a, '-', b + ['-'] + c);
    SplitAtSeparator(b, '-', c);
    SplitWithoutSeparator(c, '-');
  }

  lemma SplitTwo(a: string, b: string)
    requires IsDigits(a) && IsDigits(b)
    ensures Split(a + "-" + b, '-') == [a, b]
  {
    assert '-' !in a && '-' !in b;
    SplitAtSeparator(a, '-', b);
    SplitWithoutSeparator(b, '-');
  }

  /** A `YYYY-MM-DD` string is read as exactly that date. */
  lemma ParseIsoDate(d: Date)
    requires ValidDate(d)
    ensures ParseEolDate(FormatIsoDate(d)) == Ok(d)
  {
    var y, m, dd := PadNat(d.year, 4), PadNat(d.month, 2), PadNat(d.day, 2);
    PadNatLength(d.year, 4);
    PadNatLength(d.month, 2);
    PadNatLength(d.day, 2);
    ParseNatOfPadNat(d.year, 4);
    ParseNatOfPadNat(d.month, 2);
    ParseNatOfPadNat(d.day, 2);
    SplitThree(y, m, dd);
  }

  /** A `YYYY-MM` string (any zero padding) is read as the first day of that month. */
  lemma ParseYearMonth(year: nat, month: nat, yearWidth: nat, monthWidth: nat)
    requires 1 <= year <= 9999 && 1 <= month <= 12
    ensures ParseEolDate(PadNat(year, yearWidth) + "-" + PadNat(month, monthWidth)) == Ok(Date(year, month, 1))
  {
    ParseNatOfPadNat(year, yearWidth);
    ParseNatOfPadNat(month, monthWidth);
    SplitTwo(PadNat(year, yearWidth), PadNat(month, monthWidth));
  }

  lemma ParseFullDateExample()
    ensures ParseEolDate("2023-06-27") == Ok(Date(2023, 6, 27))
  {
    assert FormatIsoDate(Date(2023, 6, 27)) == "2023-06-27";
    ParseIsoDate(Date(2023, 6, 27));
  }

  lemma ParseYearMonthExample()
    ensures ParseEolDate("2023-06") == Ok(Date(2023, 6, 1))
  {
    assert PadNat(2023, 4) + "-" + PadNat(6, 2) == "2023-06";
    ParseYearMonth(2023, 6, 4, 2);
  }

  lemma ParseUnknownFormatExamples()
    ensures ParseEolDate("2023") == Err(UnknownFormat)
    ensures ParseEolDate("garbage") == Err(UnknownFormat)
  {
    SplitWithoutSeparator("2023", '-');
    SplitWithoutSeparator("garbage", '-');
  }

  /** A one-digit month is not ISO 8601: `fromisoformat` refuses it. */
  lemma ParseShortMonthExample()
    ensures ParseEolDate("2023-6-27") == Err(InvalidIsoFormat)
  {
    assert "2023-6-27" == "2023" + "-" + "6" + "-" + "27";
    SplitThree("2023", "6", "27");
  }

  /** Text of the ISO shape whose fields name no calendar date is refused. */
  lemma ParseNoSuchIsoDate(year: string, month: string, day: string)
    requires |year| == 4 && |month| == 2 && |day| == 2
    requires IsDigits(year) && IsDigits(month) && IsDigits(day)
    requires !ValidDate(Date(DigitsValue(year), DigitsValue(month), DigitsValue(day)))
    ensures ParseEolDate(year + "-" + month + "-" + day) == Err(OutOfRange)
  {
    SplitThree(year, month, day);
    assert FromIsoFormat([year, month, day]) == Err(OutOfRange);
  }

  /** Well-formed text naming no calendar date is refused. */
  lemma ParseNoSuchDayExample()
    ensures ParseEolDate("2023-02-30") == Err(OutOfRange)
  {
    var year, month, day := "2023", "02", "30";
    assert "2023-02-30" == year + "-" + month + "-" + day;
    assert PadNat(2, 2) == month && PadNat(30, 2) == day;
    ParseNatOfPadNat(2, 2);
    ParseNatOfPadNat(30, 2);
    assert DigitsValue(month) == 2 && DigitsValue(day) == 30;
    ParseNoSuchIsoDate(year, month, day);
  }

  /** A month number beyond 12 is refused by `dt.date`. */
  lemma ParseNoSuchMonthExample()
    ensures ParseEolDate("2023-13") == Err(OutOfRange)
  {
    var parts := ["2023", "13"];
    assert "2023-13" == parts[0] + "-" + parts[1];
    assert PadNat(2023, 4) == parts[0] && PadNat(13, 2) == parts[1];
    ParseNatOfPadNat(2023, 4);
    ParseNatOfPadNat(13, 2);
    SplitTwo(parts[0], parts[1]);
    assert MakeDate(2023, 13, 1) == Err(OutOfRange);
    assert FromYearMonth(parts) == Err(OutOfRange);
  }

  /** A `YYYY-MM` year that does not fit in a C `int` is an `OverflowError`, not a `ValueError`. */
  lemma ParseHugeYear(year: string, month: string)
    requires IsDigits(year) && IsDigits(month) && DigitsValue(year) >= 0x8000_0000
    ensures ParseEolDate(year + "-" + month) == Err(Overflow)
  {
    SplitTwo(year, month);
  }

  /** A `YYYY-MM` date whose month does not fit in a C `int` raises `OverflowError`. */
  lemma ParseHugeMonth(year: string, month: string)
    requires IsDigits(year) && IsDigits(month) && DigitsValue(month) >= 0x8000_0000
    ensures ParseEolDate(year + "-" + month) == Err(Overflow)
  {
    SplitTwo(year, month);
  }

  /** Numeric `YYYY-MM` fields that fit in a C `int` but name no month raise `ValueError`. */
  lemma ParseNoSuchYearMonth(year: string, month: string)
    requires IsDigits(year) && IsDigits(month)
    requires InCInt(DigitsValue(year)) && InCInt(DigitsValue(month))
    requires !ValidDate(Date(DigitsValue(year), DigitsValue(month), 1))
    ensures ParseEolDate(year + "-" + month) == Err(OutOfRange)
  {
    SplitTwo(year, month);
  }

  lemma ParseHugeYearExample()
    ensures ParseEolDate("99999999999-01") == Err(Overflow)
  {
    var year := "99999999999";
    assert IsDigits(year) && year[0] != '0';
    DigitsValueAtLeast(year);
    assert Pow10(|year| - 1) == Pow10(10) == 10_000_000_000;
    assert "99999999999-01" == year + "-" + "01";
    ParseHugeYear(year, "01");
  }
}
