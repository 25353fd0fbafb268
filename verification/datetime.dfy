/** LocalDateTime.parse(text, DateTimeFormatter.ofPattern("yyyy-MM-dd HH:mm:ss")) with the
    formatter's default SMART resolver, read as a count of seconds on the proleptic Gregorian
    timeline (second 0 is 0001-01-01 00:00:00). A LocalDateTime carries no zone, so this
    count is a faithful stand-in: comparing two of them is comparing counts (SecondsOrder)
    and plusHours(1) adds 3600. */
module DateTime {
  import opened Wrappers
  import opened Decimal

  const SecondsPerDay := 86400
  const SecondsPerHour := 3600

  /** The six numeric fields of the pattern, as read from the text. */
  datatype Fields = Fields(year: int, month: int, day: int, hour: int, minute: int, second: int)

  /** Fields small enough to print at the pattern's widths (4 digits for the year, 2 for the rest). */
  predicate Printable(f: Fields) {
    && 0 <= f.year < 10000
    && 0 <= f.month < 100 && 0 <= f.day < 100
    && 0 <= f.hour < 100 && 0 <= f.minute < 100 && 0 <= f.second < 100
  }

  /** The text the pattern prints for the fields. */
  function Format(f: Fields): (s: string)
    requires Printable(f)
    ensures |s| == 19
  {
    Pad(f.year, 4) + "-" + Pad(f.month, 2) + "-" + Pad(f.day, 2) + " "
      + Pad(f.hour, 2) + ":" + Pad(f.minute, 2) + ":" + Pad(f.second, 2)
  }

  /** The pattern's layout: fixed-width ASCII digit fields between the literal separators,
      with nothing left over. */
  predicate Shape(s: string) {
    && |s| == 19
    && AllDigits(s[0..4]) && s[4] == '-' && AllDigits(s[5..7]) && s[7] == '-'
    && AllDigits(s[8..10]) && s[10] == ' ' && AllDigits(s[11..13]) && s[13] == ':'
    && AllDigits(s[14..16]) && s[16] == ':' && AllDigits(s[17..19])
  }

  /** The parsing phase: the fields read from text of the pattern's layout. */
  function Decode(s: string): (r: Option<Fields>)
    ensures r.Some? <==> Shape(s)
    ensures r.Some? ==> Printable(r.value)
  {
    if !Shape(s) then None
    else
      assert Pow10(4) == 10000 && Pow10(2) == 100;
      Some(Fields(Value(s[0..4]), Value(s[5..7]), Value(s[8..10]),
                  Value(s[11..13]), Value(s[14..16]), Value(s[17..19])))
  }

  predicate IsLeapYear(y: int) {
    y % 4 == 0 && (y % 100 != 0 || y % 400 == 0)
  }

  function MonthLength(y: int, m: int): (n: int)
    requires 1 <= m <= 12
    ensures 28 <= n <= 31
  {
    if m == 2 then (if IsLeapYear(y) then 29 else 28)
    else if m == 4 || m == 6 || m == 9 || m == 11 then 30
    else 31
  }

  function YearLength(y: int): int {
    if IsLeapYear(y) then 366 else 365
  }

  /** Days of year `y` before the first of month `m` (m == 13 gives the whole year). */
  function DaysBeforeMonth(y: int, m: int): int
    requires 1 <= m <= 13
  {
    var leap := if m > 2 && IsLeapYear(y) then 1 else 0;
    leap + (
      if m == 1 then 0 else if m == 2 then 31 else if m == 3 then 59
      else if m == 4 then 90 else if m == 5 then 120 else if m == 6 then 151
      else if m == 7 then 181 else if m == 8 then 212 else if m == 9 then 243
      else if m == 10 then 273 else if m == 11 then 304 else if m == 12 then 334
      else 365)
  }

  /** Days from 0001-01-01 to the first of January of year `y`. */
  function DaysBeforeYear(y: int): int
    requires y >= 1
  {
    var p := y - 1;
    365 * p + p / 4 - p / 100 + p / 400
  }

  function DayNumber(y: int, m: int, d: int): int
    requires y >= 1 && 1 <= m <= 12
  {
    DaysBeforeYear(y) + DaysBeforeMonth(y, m) + d - 1
  }

  /** The field values the SMART resolver accepts: a year of era of at least 1, a month,
      a day of month up to 31 (clamped to the month's length below), and a time of day,
      where 24:00:00 is accepted as the midnight that ends the day. */
  predicate Resolvable(f: Fields) {
    && 1 <= f.year && 1 <= f.month <= 12 && 1 <= f.day <= 31
    && 0 <= f.minute <= 59 && 0 <= f.second <= 59
    && 0 <= f.hour && (f.hour <= 23 || (f.hour == 24 && f.minute == 0 && f.second == 0))
  }

  /** The resolving phase: the instant the fields denote, or None where the resolver throws. */
  function Resolve(f: Fields): Option<int>
  {
    if !Resolvable(f) then None
    else
      var last := MonthLength(f.year, f.month);
      var day := if f.day > last then last else f.day;
      Some(DayNumber(f.year, f.month, day) * SecondsPerDay
           + f.hour * SecondsPerHour + f.minute * 60 + f.second)
  }

  /** The parse the booking engine performs; None where java.time throws
      DateTimeParseException. */
  function ParseTime(s: string): Option<int>
  {
    match Decode(s)
    case None => None
    case Some(f) => Resolve(f)
  }

  /** A LocalDateTime of year of era at least 1: a real calendar date and a time of day. */
  predicate IsDateTime(f: Fields) {
    && 1 <= f.year && 1 <= f.month <= 12 && 1 <= f.day <= MonthLength(f.year, f.month)
    && 0 <= f.hour <= 23 && 0 <= f.minute <= 59 && 0 <= f.second <= 59
  }

  /** A LocalDateTime whose year has four digits. */
  predicate CalendarValid(f: Fields) {
    IsDateTime(f) && f.year <= 9999
  }

  function Seconds(f: Fields): int
    requires IsDateTime(f)
  {
    DayNumber(f.year, f.month, f.day) * SecondsPerDay
      + f.hour * SecondsPerHour + f.minute * 60 + f.second
  }

  /** LocalDateTime.isBefore: comparison field by field, most significant first. */
  predicate Before(a: Fields, b: Fields) {
    || a.year < b.year
    || (a.year == b.year && a.month < b.month)
    || (a.year == b.year && a.month == b.month && a.day < b.day)
    || (a.year == b.year && a.month == b.month && a.day == b.day && a.hour < b.hour)
    || (a.year == b.year && a.month == b.month && a.day == b.day && a.hour == b.hour
        && a.minute < b.minute)
    || (a.year == b.year && a.month == b.month && a.day == b.day && a.hour == b.hour
        && a.minute == b.minute && a.second < b.second)
  }

  /** Reading the fields back from printed text gives the fields. */
  lemma DecodeFormat(f: Fields)
    requires Printable(f)
    ensures Decode(Format(f)) == Some(f)
  {
    var s := Format(f);
    assert Pow10(4) == 10000 && Pow10(2) == 100;
    FormatFields(f);
    ValuePad(f.year, 4);
    ValuePad(f.month, 2);
    ValuePad(f.day, 2);
    ValuePad(f.hour, 2);
    ValuePad(f.minute, 2);
    ValuePad(f.second, 2);
  }

  /** Where each field sits in the printed text. */
  lemma FormatFields(f: Fields)
    requires Printable(f)
    ensures var s := Format(f);
      && s[0..4] == Pad(f.year, 4) && s[5..7] == Pad(f.month, 2) && s[8..10] == Pad(f.day, 2)
      && s[11..13] == Pad(f.hour, 2) && s[14..16] == Pad(f.minute, 2)
      && s[17..19] == Pad(f.second, 2)
      && s[4] == '-' && s[7] == '-' && s[10] == ' ' && s[13] == ':' && s[16] == ':'
  {
  }

  /** Text the parser reads is exactly the printed form of what it read. */
  lemma FormatDecode(s: string)
    requires Shape(s)
    ensures Format(Decode(s).value) == s
  {
    PadValue(s[0..4]);
    PadValue(s[5..7]);
    PadValue(s[8..10]);
    PadValue(s[11..13]);
    PadValue(s[14..16]);
    PadValue(s[17..19]);
    assert s == s[0..4] + [s[4]] + s[5..7] + [s[7]] + s[8..10] + [s[10]]
      + s[11..13] + [s[13]] + s[14..16] + [s[16]] + s[17..19];
  }

  /** The pattern parses exactly the printed forms of field values the resolver accepts. */
  lemma ParseTimeExact(s: string)
    ensures ParseTime(s).Some? <==> exists f :: Printable(f) && Resolvable(f) && Format(f) == s
  {
    if ParseTime(s).Some? {
      FormatDecode(s);
      var f := Decode(s).value;
      assert Printable(f) && Resolvable(f) && Format(f) == s;
    }
    if f :| Printable(f) && Resolvable(f) && Format(f) == s {
      DecodeFormat(f);
    }
  }

  /** Every LocalDateTime with a four-digit year prints to text that parses back to it. */
  lemma ParseFormat(f: Fields)
    requires CalendarValid(f)
    ensures ParseTime(Format(f)) == Some(Seconds(f))
  {
    ResolveValid(f);
    DecodeFormat(f);
  }

  /** A real date needs no clamping: the resolver gives its instant. */
  lemma ResolveValid(f: Fields)
    requires CalendarValid(f)
    ensures Printable(f) && Resolve(f) == Some(Seconds(f))
  {
    assert MonthLength(f.year, f.month) <= 31;
  }

  /** The LocalDateTime the SMART resolver builds from resolvable fields: a day past the
      month's end becomes its last day, and 24:00:00 becomes midnight of the next day. */
  function Resolved(f: Fields): (g: Fields)
    requires Resolvable(f)
    ensures IsDateTime(g)
  {
    var last := MonthLength(f.year, f.month);
    var day := if f.day > last then last else f.day;
    if f.hour < 24 then Fields(f.year, f.month, day, f.hour, f.minute, f.second)
    else if day < last then Fields(f.year, f.month, day + 1, 0, 0, 0)
    else if f.month < 12 then Fields(f.year, f.month + 1, 1, 0, 0, 0)
    else Fields(f.year + 1, 1, 1, 0, 0, 0)
  }

  /** The count Resolve gives is the second count of the date-time the resolver builds, so
      every parsed instant is a LocalDateTime's count and SecondsOrder applies to it. */
  lemma ResolvedSeconds(f: Fields)
    requires Resolvable(f)
    ensures Resolve(f) == Some(Seconds(Resolved(f)))
  {
    var last := MonthLength(f.year, f.month);
    var day := if f.day > last then last else f.day;
    if f.hour == 24 && day == last {
      if f.month < 12 {
        DaysBeforeMonthNext(f.year, f.month);
      } else {
        DaysBeforeYearStep(f.year);
      }
    }
  }

  lemma DaysBeforeMonthNext(y: int, m: int)
    requires 1 <= m < 12
    ensures DaysBeforeMonth(y, m + 1) == DaysBeforeMonth(y, m) + MonthLength(y, m)
  {
  }

  /** Every instant the pattern parses is the second count of a LocalDateTime whose year
      has at most five digits (10000 only for 9999-12-31 24:00:00). */
  lemma ParseTimeIsSeconds(s: string)
    ensures ParseTime(s).Some? ==>
      exists g :: IsDateTime(g) && g.year <= 10000 && Seconds(g) == ParseTime(s).value
  {
    if ParseTime(s).Some? {
      var f := Decode(s).value;
      ResolvedSeconds(f);
      assert IsDateTime(Resolved(f)) && Resolved(f).year <= 10000;
    }
  }

  lemma DaysBeforeYearStep(y: int)
    requires y >= 1
    ensures DaysBeforeYear(y + 1) == DaysBeforeYear(y) + YearLength(y)
  {
    var p := y - 1;
    assert (p + 1) / 4 - p / 4 == (if y % 4 == 0 then 1 else 0);
    assert (p + 1) / 100 - p / 100 == (if y % 100 == 0 then 1 else 0);
    assert (p + 1) / 400 - p / 400 == (if y % 400 == 0 then 1 else 0);
  }

  lemma {:induction false} DaysBeforeYearGrows(y1: int, y2: int)
    requires 1 <= y1 < y2
    ensures DaysBeforeYear(y1) + YearLength(y1) <= DaysBeforeYear(y2)
    decreases y2 - y1
  {
    DaysBeforeYearStep(y1);
    if y1 + 1 < y2 {
      DaysBeforeYearGrows(y1 + 1, y2);
    }
  }

  lemma DaysBeforeMonthGrows(y: int, m1: int, m2: int)
    requires 1 <= m1 < m2 <= 13
    ensures DaysBeforeMonth(y, m1) + MonthLength(y, m1) <= DaysBeforeMonth(y, m2)
  {
  }

  /** Calendar order of dates is numeric order of day numbers. */
  lemma DayNumberOrder(a: Fields, b: Fields)
    requires IsDateTime(a) && IsDateTime(b)
    requires a.year < b.year || (a.year == b.year && a.month < b.month)
      || (a.year == b.year && a.month == b.month && a.day < b.day)
    ensures DayNumber(a.year, a.month, a.day) < DayNumber(b.year, b.month, b.day)
  {
    DaysBeforeMonthGrows(a.year, a.month, 13);
    if a.year < b.year {
      DaysBeforeYearGrows(a.year, b.year);
    } else if a.month < b.month {
      DaysBeforeMonthGrows(a.year, a.month, b.month);
    }
  }

  lemma BeforeSeconds(a: Fields, b: Fields)
    requires IsDateTime(a) && IsDateTime(b) && Before(a, b)
    ensures Seconds(a) < Seconds(b)
  {
    if a.year != b.year || a.month != b.month || a.day != b.day {
      DayNumberOrder(a, b);
    }
  }

  /** LocalDateTime.isBefore agrees with the order of the second counts, so comparing
      counts (and adding 3600 for plusHours(1)) models the Java comparisons exactly. */
  lemma SecondsOrder(a: Fields, b: Fields)
    requires IsDateTime(a) && IsDateTime(b)
    ensures Before(a, b) <==> Seconds(a) < Seconds(b)
    ensures a == b <==> Seconds(a) == Seconds(b)
  {
    if Before(a, b) {
      BeforeSeconds(a, b);
    } else if Before(b, a) {
      BeforeSeconds(b, a);
    }
  }
}
