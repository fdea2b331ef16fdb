/** The parts of java.time.LocalDate the core uses: the proleptic Gregorian
    calendar, ordering, `plusDays(1)`, `minusYears(n)`, `of(y, m, 1)`,
    `withDayOfMonth(lengthOfMonth())`, and the ISO 8601 extended calendar date
    text `YYYY-MM-DD` (section 4.1.2.2 of ISO 8601:2004) written by `toString`
    and read by `parse`. */
module Dates {
  import opened Wrappers
  import opened Digits

  datatype Ymd = Ymd(year: int, month: int, day: int)

  /** The smallest and largest year a LocalDate can hold. */
  const MinYear: int := -999_999_999
  const MaxYear: int := 999_999_999

  /** Gregorian rule. Divisibility is the same under Java's truncating `%` and
      Dafny's Euclidean `%`, so negative years follow Java too. */
  predicate IsLeapYear(y: int) {
    y % 4 == 0 && (y % 100 != 0 || y % 400 == 0)
  }

  function LengthOfMonth(y: int, m: int): (n: int)
    ensures 28 <= n <= 31
  {
    if m == 2 then (if IsLeapYear(y) then 29 else 28)
    else if m == 4 || m == 6 || m == 9 || m == 11 then 30
    else 31
  }

  predicate IsValidDate(d: Ymd) {
    1 <= d.month <= 12 && 1 <= d.day <= LengthOfMonth(d.year, d.month)
  }

  /** A calendar date. The year is not bounded here: LocalDate's year range is
      enforced where Java enforces it, in `Of` and `ParseDate`. */
  type Date = d: Ymd | IsValidDate(d) witness Ymd(1970, 1, 1)

  predicate InYearRange(y: int) {
    MinYear <= y <= MaxYear
  }

  /** `a.isBefore(b)`: chronological order is lexicographic on (year, month, day). */
  predicate IsBefore(a: Date, b: Date) {
    a.year < b.year
    || (a.year == b.year && a.month < b.month)
    || (a.year == b.year && a.month == b.month && a.day < b.day)
  }

  /** `a.isAfter(b)`. */
  predicate IsAfter(a: Date, b: Date) {
    IsBefore(b, a)
  }

  /** The ordering is a strict total order. */
  lemma BeforeIsStrictTotalOrder(a: Date, b: Date, c: Date)
    ensures !IsBefore(a, a)
    ensures IsBefore(a, b) ==> !IsBefore(b, a)
    ensures IsBefore(a, b) && IsBefore(b, c) ==> IsBefore(a, c)
    ensures a == b || IsBefore(a, b) || IsBefore(b, a)
  {
  }

  /** `d.plusDays(1)`: the next calendar date. */
  function PlusOneDay(d: Date): (r: Date)
    ensures IsBefore(d, r)
    ensures forall x: Date :: IsBefore(d, x) ==> x == r || IsBefore(r, x)
  {
    if d.day < LengthOfMonth(d.year, d.month) then Ymd(d.year, d.month, d.day + 1)
    else if d.month < 12 then Ymd(d.year, d.month + 1, 1)
    else Ymd(d.year + 1, 1, 1)
  }

  /** `d.minusYears(n)`: same month and day `n` years earlier, with the day moved
      back to the last day of the month when that month is shorter (29 February
      of a leap year becomes 28 February). */
  function MinusYears(d: Date, n: nat): (r: Date)
    ensures r.year == d.year - n && r.month == d.month && r.day <= d.day
    ensures forall x: Date :: x.year == r.year && x.month == r.month && x.day <= d.day ==> x.day <= r.day
    ensures IsValidDate(Ymd(d.year - n, d.month, d.day)) ==> r.day == d.day
  {
    var y := d.year - n;
    var last := LengthOfMonth(y, d.month);
    Ymd(y, d.month, if d.day <= last then d.day else last)
  }

  /** `LocalDate.of(year, month, 1)`: the first day of a month, failing like Java
      when the year or the month is out of range. */
  function FirstDayOfMonth(year: int, month: int): (r: Result<Date, Failure>)
    ensures r.Ok? <==> InYearRange(year) && 1 <= month <= 12
    ensures r.Ok? ==> r.value == Ymd(year, month, 1)
    ensures !InYearRange(year) ==> r == Err(DateTime(
      "Invalid value for Year (valid values -999999999 - 999999999): " + IntText(year)))
    ensures InYearRange(year) && !(1 <= month <= 12) ==> r == Err(DateTime(
      "Invalid value for MonthOfYear (valid values 1 - 12): " + IntText(month)))
  {
    if !InYearRange(year) then
      Result<Date, Failure>.Err(DateTime(
        "Invalid value for Year (valid values -999999999 - 999999999): " + IntText(year)))
    else if !(1 <= month <= 12) then
      Result<Date, Failure>.Err(DateTime(
        "Invalid value for MonthOfYear (valid values 1 - 12): " + IntText(month)))
    else
      Ok(Ymd(year, month, 1))
  }

  /** `d.withDayOfMonth(d.lengthOfMonth())`. */
  function LastDayOfMonth(d: Date): (r: Date)
    ensures r.year == d.year && r.month == d.month
    ensures forall x: Date :: x.year == d.year && x.month == d.month ==> x.day <= r.day
  {
    Ymd(d.year, d.month, LengthOfMonth(d.year, d.month))
  }

  /** The dates from the first to the last day of a month, both included, are
      exactly the dates of that month. */
  lemma MonthWindow(first: Date, x: Date)
    requires first.day == 1
    ensures !IsBefore(x, first) && !IsAfter(x, LastDayOfMonth(first))
      <==> x.year == first.year && x.month == first.month
  {
  }

  /** `Integer.toString`. */
  function IntText(x: int): string {
    if x < 0 then "-" + Decimal(-x) else Decimal(x)
  }

  /** The year as `LocalDate.toString` writes it: at least four digits, a '-' for
      years before 0 and a '+' for years after 9999. */
  function FormatYear(y: int): string {
    var sign := if y < 0 then "-" else if y > 9999 then "+" else "";
    sign + PadLeft(Decimal(if y < 0 then -y else y), 4)
  }

  /** Two digits, zero-padded. */
  function TwoDigits(n: nat): (s: string)
    requires n < 100
    ensures |s| == 2 && AllDigits(s) && Value(s) == n
  {
    DecimalLength(n, 2);
    PadLeftValue(Decimal(n), 2);
    PadLeft(Decimal(n), 2)
  }

  /** `LocalDate.toString`: `YYYY-MM-DD`. */
  function FormatDate(d: Date): (s: string)
    ensures |s| >= 10
    ensures s[|s| - 6] == '-' && s[|s| - 3] == '-'
  {
    FormatYear(d.year) + "-" + TwoDigits(d.month) + "-" + TwoDigits(d.day)
  }

  /** The year field of `LocalDate.parse` (strict, sign style EXCEEDS_PAD, 4 to 10
      digits): exactly four digits without a sign, five to ten after '+', four to
      ten after '-' but not minus zero; the value must be a LocalDate year. */
  function ParseYear(t: string): (r: Option<int>)
    ensures r.Some? ==> InYearRange(r.value)
  {
    if |t| > 0 && t[0] == '+' then
      var digits := t[1..];
      if AllDigits(digits) && 5 <= |digits| <= 10 && Value(digits) <= MaxYear
      then Some(Value(digits)) else None
    else if |t| > 0 && t[0] == '-' then
      var digits := t[1..];
      if AllDigits(digits) && 4 <= |digits| <= 10 && Value(digits) != 0 && Value(digits) <= -MinYear
      then Some(-(Value(digits) as int)) else None
    else if |t| == 4 && AllDigits(t) then
      ValueBound(t);
      assert Pow10(4) == 10000;
      Some(Value(t))
    else None
  }

  /** `LocalDate.parse` with ISO_LOCAL_DATE: a year field, then "-MM-DD" with two
      digits each, the whole text consumed, and the date valid under the strict
      resolver (no 30 February). */
  function ParseDate(s: string): (r: Option<Date>)
    ensures r.Some? ==> InYearRange(r.value.year)
  {
    if |s| < 6 then None
    else
      var tail := s[|s| - 6..];
      if !(tail[0] == '-' && AllDigits(tail[1..3]) && tail[3] == '-' && AllDigits(tail[4..6])) then None
      else
        match ParseYear(s[..|s| - 6])
        case None => None
        case Some(y) =>
          var d := Ymd(y, Value(tail[1..3]), Value(tail[4..6]));
          if IsValidDate(d) then Some(d) else None
  }

  /** Reading the year back from its text gives the year. */
  lemma ParseFormatYear(y: int)
    requires InYearRange(y)
    ensures ParseYear(FormatYear(y)) == Some(y)
  {
    var a: nat := if y < 0 then -y else y;
    var digits := PadLeft(Decimal(a), 4);
    YearDigits(a);
    if y > 9999 {
      ParseSignedYear('+', digits);
    } else if y < 0 {
      ParseSignedYear('-', digits);
    } else {
      assert FormatYear(y) == digits;
      ParsePlainYear(digits);
    }
  }

  /** Four digits without a sign read as their value. */
  lemma ParsePlainYear(t: string)
    requires |t| == 4 && AllDigits(t)
    ensures ParseYear(t) == Some(Value(t) as int)
  {
    assert IsDigit(t[0]);
  }

  /** A sign followed by the digits is read by the branch of that sign. */
  lemma ParseSignedYear(sign: char, digits: string)
    requires sign == '+' || sign == '-'
    ensures ParseYear([sign] + digits) == if sign == '+' then
      (if AllDigits(digits) && 5 <= |digits| <= 10 && Value(digits) <= MaxYear
       then Some(Value(digits) as int) else None)
    else
      (if AllDigits(digits) && 4 <= |digits| <= 10 && Value(digits) != 0 && Value(digits) <= -MinYear
       then Some(-(Value(digits) as int)) else None)
  {
    var t := [sign] + digits;
    assert t[0] == sign && t[1..] == digits;
  }

  /** The padded digits of a year's magnitude: four of them up to 9999, five
      to nine beyond, and they read back as the magnitude. */
  lemma YearDigits(a: nat)
    requires a <= MaxYear
    ensures var digits := PadLeft(Decimal(a), 4);
      AllDigits(digits) && Value(digits) == a && 4 <= |digits| <= 9
      && (a <= 9999 <==> |digits| == 4)
  {
    var digits := PadLeft(Decimal(a), 4);
    PadLeftValue(Decimal(a), 4);
    assert Pow10(9) == 1_000_000_000;
    DecimalLength(a, 9);
    if a <= 9999 {
      assert Pow10(4) == 10000;
      DecimalLength(a, 4);
    } else {
      ValueBound(digits);
      assert Pow10(4) == 10000;
    }
  }

  /** `LocalDate.parse(d.toString())` gives `d` back for every date a LocalDate can hold. */
  lemma ParseFormatDate(d: Date)
    requires InYearRange(d.year)
    ensures ParseDate(FormatDate(d)) == Some(d)
  {
    var yt, mt, dt := FormatYear(d.year), TwoDigits(d.month), TwoDigits(d.day);
    ParseFormatYear(d.year);
    ParseDateText(yt, mt, dt, d.year, d.month, d.day);
    assert FormatDate(d) == yt + "-" + mt + "-" + dt;
    assert Ymd(d.year, d.month, d.day) == d;
  }

  /** A year text followed by "-MM-DD" parses as that date when it is valid. */
  lemma ParseDateText(yt: string, mt: string, dt: string, y: int, month: int, day: int)
    requires ParseYear(yt) == Some(y)
    requires |mt| == 2 && AllDigits(mt) && Value(mt) == month
    requires |dt| == 2 && AllDigits(dt) && Value(dt) == day
    requires IsValidDate(Ymd(y, month, day))
    ensures ParseDate(yt + "-" + mt + "-" + dt) == Some(Ymd(y, month, day))
  {
    DateTextParts(yt, mt, dt);
    ParseDateOfParts(yt + "-" + mt + "-" + dt, y, month, day);
  }

  /** Where the parts sit in `year-MM-DD`: the last six chars are "-MM-DD". */
  lemma DateTextParts(yt: string, mt: string, dt: string)
    requires |mt| == 2 && |dt| == 2
    ensures var s := yt + "-" + mt + "-" + dt;
      |s| >= 6 && s[..|s| - 6] == yt
      && s[|s| - 6..][0] == '-' && s[|s| - 6..][1..3] == mt
      && s[|s| - 6..][3] == '-' && s[|s| - 6..][4..6] == dt
  {
    var s := yt + "-" + mt + "-" + dt;
    assert s == yt + ("-" + mt + "-" + dt);
    var tail := s[|s| - 6..];
    assert tail == "-" + mt + "-" + dt;
  }

  /** Text whose year part and "-MM-DD" tail read as a valid date parses as it. */
  lemma ParseDateOfParts(s: string, y: int, month: int, day: int)
    requires |s| >= 6 && ParseYear(s[..|s| - 6]) == Some(y)
    requires var tail := s[|s| - 6..];
      && tail[0] == '-' && tail[3] == '-'
      && AllDigits(tail[1..3]) && Value(tail[1..3]) == month
      && AllDigits(tail[4..6]) && Value(tail[4..6]) == day
    requires IsValidDate(Ymd(y, month, day))
    ensures ParseDate(s) == Some(Ymd(y, month, day))
  {
  }
}
