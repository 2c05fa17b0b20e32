/**
 * Proleptic Gregorian dates and naive timestamps, and the reading of a
 * `YYYY-MM-DD` string by Python's `datetime.strptime(s, '%Y-%m-%d')`, which
 * both the registration form (date of birth) and the flight search (date
 * filter) rely on.
 */
module Calendar {
  import opened Wrappers
  import opened Decimal

  datatype Date = Date(year: int, month: int, day: int)

  /** A naive timestamp: a date and the microseconds elapsed since its midnight. */
  datatype DateTime = DateTime(date: Date, micros: nat)

  predicate IsLeapYear(y: int) {
    y % 4 == 0 && (y % 100 != 0 || y % 400 == 0)
  }

  function DaysInMonth(y: int, m: int): (n: int)
    requires 1 <= m <= 12
    ensures 28 <= n <= 31
  {
    if m == 2 then (if IsLeapYear(y) then 29 else 28)
    else if m == 4 || m == 6 || m == 9 || m == 11 then 30
    else 31
  }

  /** A date `datetime.date` accepts: year 1 to 9999, a real month, a day that month has. */
  predicate ValidDate(d: Date) {
    && 1 <= d.year <= 9999
    && 1 <= d.month <= 12
    && 1 <= d.day <= DaysInMonth(d.year, d.month)
  }

  // ------------------------------------------------------------- strptime

  /**
   * The `%m` directive followed by the literal `-`: one of `10`-`12`, `01`-`09`
   * or `1`-`9`. Yields the month and the number of characters it used.
   */
  function MonthField(s: string): (r: Option<(int, nat)>)
    ensures r.Some? ==> 1 <= r.value.0 <= 12 && 1 <= r.value.1 <= 2
    ensures r.Some? ==> r.value.1 < |s| && s[r.value.1] == '-'
  {
    if |s| >= 3 && s[2] == '-' && ((s[0] == '1' && '0' <= s[1] <= '2') || (s[0] == '0' && '1' <= s[1] <= '9')) then
      Some((DigitValue(s[0]) * 10 + DigitValue(s[1]), 2))
    else if |s| >= 2 && s[1] == '-' && '1' <= s[0] <= '9' then
      Some((DigitValue(s[0]), 1))
    else
      None
  }

  /**
   * The `%d` directive as the whole rest of the input: `30`, `31`, `10`-`29`,
   * `01`-`09`, `1`-`9`, or a blank and `1`-`9`.
   */
  function DayField(s: string): (r: Option<int>)
    ensures r.Some? ==> 1 <= r.value <= 31
  {
    if |s| == 2 && ((s[0] == '3' && (s[1] == '0' || s[1] == '1'))
                    || ((s[0] == '1' || s[0] == '2') && IsDigit(s[1]))
                    || (s[0] == '0' && '1' <= s[1] <= '9')) then
      Some(DigitValue(s[0]) * 10 + DigitValue(s[1]))
    else if |s| == 2 && s[0] == ' ' && '1' <= s[1] <= '9' then
      Some(DigitValue(s[1]))
    else if |s| == 1 && '1' <= s[0] <= '9' then
      Some(DigitValue(s[0]))
    else
      None
  }

  lemma {:induction false} FromDigitsBound(s: string)
    requires AllDigits(s)
    ensures FromDigits(s) < Pow10(|s|)
  {
    if s != [] {
      FromDigitsBound(s[..|s| - 1]);
    }
  }

  /**
   * The match of the pattern `%Y-%m-%d` against the whole of `s`, as year,
   * month and day numbers; `None` when the text does not have that shape.
   */
  function DateFields(s: string): (r: Option<(int, int, int)>)
    ensures r.Some? ==> 0 <= r.value.0 <= 9999 && 1 <= r.value.1 <= 12 && 1 <= r.value.2 <= 31
  {
    if |s| < 5 || !AllDigits(s[..4]) || s[4] != '-' then None
    else
      match MonthField(s[5..])
      case None => None
      case Some(field) =>
        var (month, width) := field;
        match DayField(s[5 + width + 1..])
        case None => None
        case Some(day) =>
          FromDigitsBound(s[..4]);
          Some((FromDigits(s[..4]), month, day))
  }

  /**
   * `datetime.strptime(s, '%Y-%m-%d').date()`: the fields above, kept only
   * when they name a date the calendar has. Every failure is Python's
   * `ValueError`, here `None`.
   */
  function ParseIsoDate(s: string): (r: Option<Date>)
    ensures r.Some? ==> ValidDate(r.value)
  {
    match DateFields(s)
    case None => None
    case Some(fields) =>
      var (year, month, day) := fields;
      if 1 <= year && day <= DaysInMonth(year, month) then Some(Date(year, month, day)) else None
  }

  /** `date.isoformat()`: zero-padded year, month and day joined by `-`. */
  function FormatIsoDate(d: Date): string
    requires ValidDate(d)
  {
    PadZeros(NatToString(d.year), 4) + "-" + PadZeros(NatToString(d.month), 2) + "-" + PadZeros(NatToString(d.day), 2)
  }

  lemma TwoDigits(n: nat)
    requires n < 100
    ensures PadZeros(NatToString(n), 2) == [DigitChar(n / 10), DigitChar(n % 10)]
  {
    if n >= 10 {
      assert NatToString(n / 10) == [DigitChar(n / 10)];
    }
  }

  lemma FourDigits(y: nat)
    requires y < 10000
    ensures |PadZeros(NatToString(y), 4)| == 4
    ensures AllDigits(PadZeros(NatToString(y), 4))
    ensures FromDigits(PadZeros(NatToString(y), 4)) == y
  {
    NatToStringLength(y, 4);
    PaddedRoundTrip(y, 4);
  }

  lemma DigitRoundTrip(d: nat)
    requires d < 10
    ensures DigitValue(DigitChar(d)) == d
  {
  }

  lemma MonthFieldOfFormat(m: int, rest: string)
    requires 1 <= m <= 12
    ensures MonthField(PadZeros(NatToString(m), 2) + "-" + rest) == Some((m, 2))
  {
    var hi, lo := m / 10, m % 10;
    TwoDigits(m);
    DigitRoundTrip(hi);
    DigitRoundTrip(lo);
    var s := PadZeros(NatToString(m), 2) + "-" + rest;
    assert s[0] == DigitChar(hi) && s[1] == DigitChar(lo) && s[2] == '-';
    assert hi == 0 || (hi == 1 && lo <= 2);
  }

  lemma DayFieldOfFormat(d: int)
    requires 1 <= d <= 31
    ensures DayField(PadZeros(NatToString(d), 2)) == Some(d)
  {
    var hi, lo := d / 10, d % 10;
    TwoDigits(d);
    DigitRoundTrip(hi);
    DigitRoundTrip(lo);
    var s := PadZeros(NatToString(d), 2);
    assert s == [DigitChar(hi), DigitChar(lo)];
    assert hi <= 2 || (hi == 3 && lo <= 1);
  }

  lemma FieldsOfParts(y: string, m: string, dd: string, year: int, month: int, day: int)
    requires |y| == 4 && AllDigits(y) && FromDigits(y) == year
    requires |m| == 2 && MonthField(m + "-" + dd) == Some((month, 2))
    requires DayField(dd) == Some(day)
    ensures DateFields(y + "-" + m + "-" + dd) == Some((year, month, day))
  {
    var s := y + "-" + m + "-" + dd;
    assert s[..4] == y;
    assert s[4] == '-';
    assert s[5..] == m + "-" + dd;
    assert s[8..] == dd;
  }

  lemma FieldsOfFormat(d: Date)
    requires ValidDate(d)
    ensures DateFields(FormatIsoDate(d)) == Some((d.year, d.month, d.day))
  {
    var y := PadZeros(NatToString(d.year), 4);
    var m := PadZeros(NatToString(d.month), 2);
    var dd := PadZeros(NatToString(d.day), 2);
    FourDigits(d.year);
    TwoDigits(d.month);
    MonthFieldOfFormat(d.month, dd);
    DayFieldOfFormat(d.day);
    FieldsOfParts(y, m, dd, d.year, d.month, d.day);
  }

  /** Every calendar date survives formatting and re-parsing. */
  lemma ParseFormatRoundTrip(d: Date)
    requires ValidDate(d)
    ensures ParseIsoDate(FormatIsoDate(d)) == Some(d)
  {
    FieldsOfFormat(d);
  }

  // ------------------------------------------------------------ spellings

  /** The texts `%m` reads as month `m`: two digits, or a single digit for months below 10. */
  function MonthSpellings(m: int): set<string>
    requires 1 <= m <= 12
  {
    {[DigitChar(m / 10), DigitChar(m % 10)]} + (if m < 10 then {[DigitChar(m)]} else {})
  }

  /** The texts `%d` reads as day `d`: two digits, or for days below 10 one digit, bare or after a blank. */
  function DaySpellings(d: int): set<string>
    requires 1 <= d <= 31
  {
    {[DigitChar(d / 10), DigitChar(d % 10)]} + (if d < 10 then {[DigitChar(d)], [' ', DigitChar(d)]} else {})
  }

  /**
   * `s` spells date `d` in the pattern `%Y-%m-%d`: four digits naming the
   * year, a dash, a spelling of the month, a dash and a spelling of the day,
   * and nothing after it.
   */
  ghost predicate SpelledAs(s: string, d: Date)
    requires ValidDate(d)
  {
    && |s| >= 5 && AllDigits(s[..4]) && FromDigits(s[..4]) == d.year && s[4] == '-'
    && exists m, dd :: m in MonthSpellings(d.month) && dd in DaySpellings(d.day) && s[5..] == m + "-" + dd
  }

  lemma CharOfDigit(c: char)
    requires IsDigit(c)
    ensures DigitChar(DigitValue(c)) == c
  {
  }

  lemma TensAndUnits(hi: nat, lo: nat)
    requires hi < 10 && lo < 10
    ensures (hi * 10 + lo) / 10 == hi && (hi * 10 + lo) % 10 == lo
  {
  }

  /** The characters `%m` consumed spell the month it read. */
  lemma MonthFieldSpelled(t: string)
    requires MonthField(t).Some?
    ensures MonthField(t).value.0 <= 12
    ensures t[..MonthField(t).value.1] in MonthSpellings(MonthField(t).value.0)
  {
    var (month, w) := MonthField(t).value;
    CharOfDigit(t[0]);
    if w == 2 {
      CharOfDigit(t[1]);
      TensAndUnits(DigitValue(t[0]), DigitValue(t[1]));
      assert t[..2] == [t[0], t[1]];
    } else {
      assert t[..1] == [t[0]];
    }
  }

  /** The text `%d` accepted spells the day it read. */
  lemma DayFieldSpelled(t: string)
    requires DayField(t).Some?
    ensures t in DaySpellings(DayField(t).value)
  {
    var day := DayField(t).value;
    if |t| == 2 && t[0] != ' ' {
      CharOfDigit(t[0]);
      CharOfDigit(t[1]);
      TensAndUnits(DigitValue(t[0]), DigitValue(t[1]));
      assert t == [t[0], t[1]];
    } else if |t| == 2 {
      CharOfDigit(t[1]);
      assert t == [' ', t[1]];
    } else {
      CharOfDigit(t[0]);
      assert t == [t[0]];
    }
  }

  /** `%m` reads every spelling of a month, followed by a dash, as that month. */
  lemma MonthFieldOfSpelling(month: int, m: string, rest: string)
    requires 1 <= month <= 12 && m in MonthSpellings(month)
    ensures MonthField(m + "-" + rest) == Some((month, |m|))
  {
    var s := m + "-" + rest;
    if |m| == 2 {
      DigitRoundTrip(month / 10);
      DigitRoundTrip(month % 10);
      assert s[0] == DigitChar(month / 10) && s[1] == DigitChar(month % 10) && s[2] == '-';
    } else {
      DigitRoundTrip(month);
      assert s[0] == DigitChar(month) && s[1] == '-';
    }
  }

  /** `%d` reads every spelling of a day as that day. */
  lemma DayFieldOfSpelling(day: int, dd: string)
    requires 1 <= day <= 31 && dd in DaySpellings(day)
    ensures DayField(dd) == Some(day)
  {
    if |dd| == 2 && dd[0] != ' ' {
      DigitRoundTrip(day / 10);
      DigitRoundTrip(day % 10);
      assert dd == [DigitChar(day / 10), DigitChar(day % 10)];
    } else if |dd| == 2 {
      DigitRoundTrip(day);
    } else {
      DigitRoundTrip(day);
    }
  }

  /** Whatever the parser accepts spells the date it returns. */
  lemma ParsedIsSpelled(s: string)
    requires ParseIsoDate(s).Some?
    ensures SpelledAs(s, ParseIsoDate(s).value)
  {
    var d := ParseIsoDate(s).value;
    var t := s[5..];
    var (month, w) := MonthField(t).value;
    MonthFieldSpelled(t);
    var rest := s[5 + w + 1..];
    assert rest == t[w + 1..];
    DayFieldSpelled(rest);
    assert t == t[..w] + "-" + rest;
  }

  /** Every spelling of a calendar date is parsed as that date. */
  lemma SpelledParses(s: string, d: Date)
    requires ValidDate(d) && SpelledAs(s, d)
    ensures ParseIsoDate(s) == Some(d)
  {
    var m, dd :| m in MonthSpellings(d.month) && dd in DaySpellings(d.day) && s[5..] == m + "-" + dd;
    MonthFieldOfSpelling(d.month, m, dd);
    DayFieldOfSpelling(d.day, dd);
    assert s[5..][|m| + 1..] == dd;
  }

  /**
   * The parser accepts exactly the spellings of calendar dates: text with
   * anything before, between or after the three fields is refused.
   */
  lemma ParseIsoDateExact(s: string, d: Date)
    ensures ParseIsoDate(s) == Some(d) <==> ValidDate(d) && SpelledAs(s, d)
  {
    if ParseIsoDate(s) == Some(d) {
      ParsedIsSpelled(s);
    }
    if ValidDate(d) && SpelledAs(s, d) {
      SpelledParses(s, d);
    }
  }

  lemma YearDigits()
    ensures FromDigits("2024") == 2024 && FromDigits("2023") == 2023
  {
    assert "2024"[..3] == "202" && "2023"[..3] == "202";
    assert "202"[..2] == "20" && "20"[..1] == "2";
  }

  /** Single-digit months and days are accepted, and 29 February in a leap year. */
  lemma ParseAccepts()
    ensures ParseIsoDate("2024-6-1") == Some(Date(2024, 6, 1))
    ensures ParseIsoDate("2024-02-29") == Some(Date(2024, 2, 29))
  {
    YearDigits();
    assert "2024-6-1"[..4] == "2024";
    assert "2024-6-1"[5..] == "6-1";
    assert "2024-02-29"[..4] == "2024";
    assert "2024-02-29"[5..] == "02-29";
  }

  /** 29 February of a common year, a thirteenth month and 31 April are all refused. */
  lemma ParseRejects()
    ensures ParseIsoDate("2023-02-29") == None
    ensures ParseIsoDate("2024-13-01") == None
    ensures ParseIsoDate("2024-04-31") == None
  {
    YearDigits();
    assert "2023-02-29"[..4] == "2023";
    assert "2023-02-29"[5..] == "02-29";
    assert "2024-13-01"[5..] == "13-01";
    assert "2024-04-31"[..4] == "2024";
    assert "2024-04-31"[5..] == "04-31";
  }

  // ------------------------------------------------------------- ordering

  /** `a` is strictly earlier than `b`, comparing year, month, day, then time of day. */
  predicate Earlier(a: DateTime, b: DateTime) {
    if a.date.year != b.date.year then a.date.year < b.date.year
    else if a.date.month != b.date.month then a.date.month < b.date.month
    else if a.date.day != b.date.day then a.date.day < b.date.day
    else a.micros < b.micros
  }

  /** `Earlier` is a strict total order on timestamps. */
  lemma EarlierIsStrictTotalOrder(a: DateTime, b: DateTime, c: DateTime)
    ensures !Earlier(a, a)
    ensures Earlier(a, b) && Earlier(b, c) ==> Earlier(a, c)
    ensures a != b ==> Earlier(a, b) || Earlier(b, a)
  {
  }
}
