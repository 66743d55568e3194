/**
 * Calendar dates and date-times, a fixed-width stand-in for chrono's
 * `NaiveDate::parse_from_str` / `NaiveDateTime::parse_from_str`, and the
 * multi-format fallbacks of the frontmatter's `date` and `updated` fields.
 */
module Dates {
  import opened Wrappers
  import opened Text

  datatype Date = Date(year: int, month: int, day: int)

  datatype DateTime = DateTime(date: Date, hour: int, minute: int, second: int)

  /** `std::cmp::Ordering` */
  datatype Ordering = Less | Equal | Greater

  predicate IsLeapYear(y: int) {
    (y % 4 == 0 && y % 100 != 0) || y % 400 == 0
  }

  function DaysInMonth(y: int, m: int): (n: int)
    requires 1 <= m <= 12
    ensures 28 <= n <= 31
    ensures n == 29 <==> m == 2 && IsLeapYear(y)
  {
    if m == 2 then (if IsLeapYear(y) then 29 else 28)
    else if m == 4 || m == 6 || m == 9 || m == 11 then 30
    else 31
  }

  /** A date of the proleptic Gregorian calendar. */
  predicate ValidDate(d: Date) {
    1 <= d.month <= 12 && 1 <= d.day <= DaysInMonth(d.year, d.month)
  }

  /** A date with a year that `%Y` writes with four digits. */
  predicate FourDigitDate(d: Date) {
    ValidDate(d) && 0 <= d.year <= 9999
  }

  predicate ValidDateTime(t: DateTime) {
    ValidDate(t.date) && 0 <= t.hour < 24 && 0 <= t.minute < 60 && 0 <= t.second < 60
  }

  function DigitValue(c: char): (v: nat)
    requires IsDigit(c)
    ensures v < 10
  {
    (c as int) - ('0' as int)
  }

  function DigitChar(v: nat): (c: char)
    requires v < 10
    ensures IsDigit(c) && DigitValue(c) == v
  {
    (('0' as int) + v) as char
  }

  function Number2(s: string): (n: nat)
    requires |s| == 2 && AllDigits(s)
    ensures n < 100
  {
    10 * DigitValue(s[0]) + DigitValue(s[1])
  }

  function Number4(s: string): (n: nat)
    requires |s| == 4 && AllDigits(s)
    ensures n < 10000
  {
    100 * Number2(s[..2]) + Number2(s[2..])
  }

  function Digits2(n: nat): (s: string)
    requires n < 100
    ensures |s| == 2 && AllDigits(s) && Number2(s) == n
  {
    [DigitChar(n / 10), DigitChar(n % 10)]
  }

  function Digits4(n: nat): (s: string)
    requires n < 10000
    ensures |s| == 4 && AllDigits(s) && Number4(s) == n
  {
    var s := Digits2(n / 100) + Digits2(n % 100);
    assert s[..2] == Digits2(n / 100) && s[2..] == Digits2(n % 100);
    s
  }

  lemma Digits2OfNumber2(s: string)
    requires |s| == 2 && AllDigits(s)
    ensures Digits2(Number2(s)) == s
  {
    var n := Number2(s);
    assert n / 10 == DigitValue(s[0]) && n % 10 == DigitValue(s[1]);
    assert DigitChar(DigitValue(s[0])) == s[0];
    assert DigitChar(DigitValue(s[1])) == s[1];
  }

  lemma Digits4OfNumber4(s: string)
    requires |s| == 4 && AllDigits(s)
    ensures Digits4(Number4(s)) == s
  {
    var hi, lo := Number2(s[..2]), Number2(s[2..]);
    assert Number4(s) / 100 == hi && Number4(s) % 100 == lo;
    Digits2OfNumber2(s[..2]);
    Digits2OfNumber2(s[2..]);
    assert s == s[..2] + s[2..];
  }

  /** `date.format("%Y<sep>%m<sep>%d")` */
  function FormatDate(d: Date, sep: char): (s: string)
    requires FourDigitDate(d)
    ensures |s| == 10
  {
    Digits4(d.year) + [sep] + Digits2(d.month) + [sep] + Digits2(d.day)
  }

  /** `t.format("%Y-%m-%d<sep>%H:%M:%S")` */
  function FormatDateTime(t: DateTime, sep: char): (s: string)
    requires ValidDateTime(t) && FourDigitDate(t.date)
    ensures |s| == 19
  {
    FormatDate(t.date, '-') + [sep] + Digits2(t.hour) + [':'] + Digits2(t.minute) + [':'] + Digits2(t.second)
  }

  predicate HasDateShape(s: string, sep: char) {
    |s| == 10 && AllDigits(s[..4]) && s[4] == sep && AllDigits(s[5..7]) && s[7] == sep && AllDigits(s[8..])
  }

  /**
   * chrono's `NaiveDate::parse_from_str(s, "%Y<sep>%m<sep>%d")`, read as a fixed-width
   * format: succeeds exactly on the text of a valid four-digit-year date.
   */
  function ParseDate(s: string, sep: char): (r: Option<Date>)
    ensures r.Some? ==> FourDigitDate(r.value) && FormatDate(r.value, sep) == s
  {
    if HasDateShape(s, sep) then
      var d := Date(Number4(s[..4]), Number2(s[5..7]), Number2(s[8..]));
      if ValidDate(d) then
        Digits4OfNumber4(s[..4]);
        Digits2OfNumber2(s[5..7]);
        Digits2OfNumber2(s[8..]);
        assert s == s[..4] + [sep] + s[5..7] + [sep] + s[8..];
        Some(d)
      else None
    else None
  }

  /** Parsing reads back every date that formatting writes. */
  lemma {:induction false} ParseFormattedDate(d: Date, sep: char)
    requires FourDigitDate(d)
    ensures ParseDate(FormatDate(d, sep), sep) == Some(d)
  {
    var s := FormatDate(d, sep);
    assert s[..4] == Digits4(d.year);
    assert s[5..7] == Digits2(d.month);
    assert s[8..] == Digits2(d.day);
  }

  /** `NaiveDateTime::parse_from_str(s, "%Y-%m-%d<sep>%H:%M:%S")`, fixed width. */
  function ParseDateTime(s: string, sep: char): (r: Option<DateTime>)
    ensures r.Some? ==> ValidDateTime(r.value) && FourDigitDate(r.value.date) && FormatDateTime(r.value, sep) == s
  {
    if |s| == 19 && s[10] == sep && s[13] == ':' && s[16] == ':'
       && AllDigits(s[11..13]) && AllDigits(s[14..16]) && AllDigits(s[17..])
    then
      match ParseDate(s[..10], '-')
      case None => None
      case Some(d) =>
        var t := DateTime(d, Number2(s[11..13]), Number2(s[14..16]), Number2(s[17..]));
        if ValidDateTime(t) then
          Digits2OfNumber2(s[11..13]);
          Digits2OfNumber2(s[14..16]);
          Digits2OfNumber2(s[17..]);
          assert s == s[..10] + [sep] + s[11..13] + [':'] + s[14..16] + [':'] + s[17..];
          Some(t)
        else None
    else None
  }

  lemma {:induction false} ParseFormattedDateTime(t: DateTime, sep: char)
    requires ValidDateTime(t) && FourDigitDate(t.date)
    ensures ParseDateTime(FormatDateTime(t, sep), sep) == Some(t)
  {
    var s := FormatDateTime(t, sep);
    assert s[..10] == FormatDate(t.date, '-');
    ParseFormattedDate(t.date, '-');
    assert s[11..13] == Digits2(t.hour);
    assert s[14..16] == Digits2(t.minute);
    assert s[17..] == Digits2(t.second);
  }

  /**
   * `deserialize_date`: an absent field is `None`; a string is read as `YYYY-MM-DD`,
   * else as `YYYY/MM/DD`, else it degrades to `None` (never an error).
   */
  function DeserializeDate(s: Option<string>): (r: Option<Date>)
    ensures s.None? ==> r.None?
    ensures r.Some? ==> FourDigitDate(r.value)
    ensures r.Some? ==> s.value == FormatDate(r.value, '-') || s.value == FormatDate(r.value, '/')
  {
    match s
    case None => None
    case Some(text) =>
      match ParseDate(text, '-')
      case Some(d) => Some(d)
      case None => ParseDate(text, '/')
  }

  /** Both accepted spellings of a date decode to that date. */
  lemma {:induction false} DeserializeDateAcceptsBothForms(d: Date)
    requires FourDigitDate(d)
    ensures DeserializeDate(Some(FormatDate(d, '-'))) == Some(d)
    ensures DeserializeDate(Some(FormatDate(d, '/'))) == Some(d)
  {
    ParseFormattedDate(d, '-');
    ParseFormattedDate(d, '/');
    assert FormatDate(d, '/')[4] == '/';
  }

  /** Midnight of a date, as `and_hms_opt(0, 0, 0)`. */
  function Midnight(d: Date): DateTime {
    DateTime(d, 0, 0, 0)
  }

  /**
   * `deserialize_datetime`: `Y-m-d H:M:S`, then `Y-m-dTH:M:S`, then a bare `Y-m-d`
   * taken at midnight; anything else degrades to `None`.
   */
  function DeserializeDatetime(s: Option<string>): (r: Option<DateTime>)
    ensures s.None? ==> r.None?
    ensures r.Some? ==> ValidDateTime(r.value) && FourDigitDate(r.value.date)
    ensures r.Some? ==>
      s.value == FormatDateTime(r.value, ' ') || s.value == FormatDateTime(r.value, 'T')
      || (s.value == FormatDate(r.value.date, '-') && r.value == Midnight(r.value.date))
  {
    match s
    case None => None
    case Some(text) =>
      match ParseDateTime(text, ' ')
      case Some(t) => Some(t)
      case None =>
        match ParseDateTime(text, 'T')
        case Some(t) => Some(t)
        case None =>
          match ParseDate(text, '-')
          case Some(d) => Some(Midnight(d))
          case None => None
  }

  /** Each of the three accepted spellings decodes to the date-time it spells. */
  lemma {:induction false} DeserializeDatetimeAcceptsAllForms(t: DateTime)
    requires ValidDateTime(t) && FourDigitDate(t.date)
    ensures DeserializeDatetime(Some(FormatDateTime(t, ' '))) == Some(t)
    ensures DeserializeDatetime(Some(FormatDateTime(t, 'T'))) == Some(t)
    ensures DeserializeDatetime(Some(FormatDate(t.date, '-'))) == Some(Midnight(t.date))
  {
    ParseFormattedDateTime(t, ' ');
    ParseFormattedDateTime(t, 'T');
    assert FormatDateTime(t, 'T')[10] == 'T';
    ParseFormattedDate(t.date, '-');
  }

  /** `NaiveDate::cmp`: chronological order. */
  function CmpDate(a: Date, b: Date): (r: Ordering)
    ensures r == Equal <==> a == b
  {
    if a.year != b.year then (if a.year < b.year then Less else Greater)
    else if a.month != b.month then (if a.month < b.month then Less else Greater)
    else if a.day != b.day then (if a.day < b.day then Less else Greater)
    else Equal
  }

  lemma CmpDateAntisymmetric(a: Date, b: Date)
    ensures CmpDate(a, b) == Less <==> CmpDate(b, a) == Greater
  {
  }

  lemma CmpDateTransitive(a: Date, b: Date, c: Date)
    ensures CmpDate(a, b) != Greater && CmpDate(b, c) != Greater ==> CmpDate(a, c) != Greater
  {
  }
}
