/**
 * Calendar dates as Python's `datetime.date` sees them: a (year, month, day) triple in
 * the proleptic Gregorian calendar, years 1 to 9999. The database compares dates
 * chronologically, and the client sorts them by their time value, which for date-only
 * text is a whole number of days.
 */
module Dates {
  import opened Wrappers
  import opened Text

  datatype Date = Date(year: int, month: int, day: int)

  /** `datetime.MINYEAR` and `datetime.MAXYEAR`. */
  const MinYear := 1
  const MaxYear := 9999

  predicate IsLeap(y: int) {
    y % 4 == 0 && (y % 100 != 0 || y % 400 == 0)
  }

  function DaysInMonth(y: int, m: int): (n: int)
    requires 1 <= m <= 12
    ensures 28 <= n <= 31
    ensures m == 2 ==> (n == 29 <==> IsLeap(y))
  {
    if m == 2 then (if IsLeap(y) then 29 else 28)
    else if m == 4 || m == 6 || m == 9 || m == 11 then 30
    else 31
  }

  /** The arguments `date(y, m, d)` accepts without raising `ValueError`. */
  predicate ValidDate(d: Date) {
    MinYear <= d.year <= MaxYear && 1 <= d.month <= 12 && 1 <= d.day <= DaysInMonth(d.year, d.month)
  }

  /**
   * The date-parsing step of the validator: the text is split on `-`, the first three
   * pieces go through `int()`, and the triple must be a valid date; a missing piece,
   * a piece that is not an integer or an invalid triple all raise, modelled as `None`.
   */
  function ParseDate(text: string): (r: Option<Date>)
    ensures r.Some? ==> ValidDate(r.value)
  {
    var parts := Split(text, '-');
    if |parts| < 3 then None
    else
      match (ParseInt(parts[0]), ParseInt(parts[1]), ParseInt(parts[2]))
      case (Some(y), Some(m), Some(d)) => if ValidDate(Date(y, m, d)) then Some(Date(y, m, d)) else None
      case _ => None
  }

  /**
   * A text is accepted exactly when its first three `-`-separated parts are integers that
   * make a valid date (further parts are ignored), and the date is the one they make.
   */
  lemma ParseDateIff(text: string)
    ensures var parts := Split(text, '-');
      ParseDate(text).Some? <==>
        |parts| >= 3 && ParseInt(parts[0]).Some? && ParseInt(parts[1]).Some? &&
        ParseInt(parts[2]).Some? &&
        ValidDate(Date(ParseInt(parts[0]).value, ParseInt(parts[1]).value, ParseInt(parts[2]).value))
    ensures var parts := Split(text, '-');
      ParseDate(text).Some? ==>
        ParseDate(text).value == Date(ParseInt(parts[0]).value, ParseInt(parts[1]).value, ParseInt(parts[2]).value)
  {
  }

  /** `date.isoformat()`: `YYYY-MM-DD`, zero-padded. */
  function IsoFormat(d: Date): (s: string)
    requires d.year >= 0 && d.month >= 0 && d.day >= 0
    ensures ValidDate(d) ==> |s| == 10 && s[4] == '-' && s[7] == '-'
  {
    var y, m, dd := ZeroPad(d.year, 4), ZeroPad(d.month, 2), ZeroPad(d.day, 2);
    assert Pow10(4) == 10000 && Pow10(2) == 100 by {
      assert Pow10(1) == 10;
      assert Pow10(2) == 100;
      assert Pow10(3) == 1000;
    }
    var s := y + "-" + m + "-" + dd;
    assert ValidDate(d) ==> |y| == 4 && |m| == 2 && |dd| == 2 && s[4] == '-' && s[7] == '-';
    s
  }

  lemma NoDashInDigits(s: string)
    requires AllDigits(s)
    ensures '-' !in s
  {
    forall k | 0 <= k < |s| ensures s[k] != '-' { assert IsDigit(s[k]); }
  }

  /** A stored date printed with `isoformat()` parses back to the same date. */
  lemma IsoFormatRoundTrip(d: Date)
    requires ValidDate(d)
    ensures ParseDate(IsoFormat(d)) == Some(d)
  {
    var y, m, dd := ZeroPad(d.year, 4), ZeroPad(d.month, 2), ZeroPad(d.day, 2);
    NoDashInDigits(y);
    NoDashInDigits(m);
    NoDashInDigits(dd);
    SplitThree(y, m, dd, '-');
    ParseIntZeroPad(d.year, 4);
    ParseIntZeroPad(d.month, 2);
    ParseIntZeroPad(d.day, 2);
    ParseDateOfParts(IsoFormat(d), [y, m, dd], d);
  }

  lemma SplitThree(a: string, b: string, c: string, sep: char)
    requires sep !in a && sep !in b && sep !in c
    ensures Split(a + [sep] + b + [sep] + c, sep) == [a, b, c]
  {
    var parts := [a, b, c];
    assert parts[1..] == [b, c] && parts[1..][1..] == [c];
    assert Join([c], sep) == c;
    assert Join([b, c], sep) == b + [sep] + c;
    assert Join(parts, sep) == a + [sep] + (b + [sep] + c);
    assert a + [sep] + b + [sep] + c == a + [sep] + (b + [sep] + c);
    SplitJoin(parts, sep);
  }

  lemma ParseDateOfParts(text: string, parts: seq<string>, d: Date)
    requires Split(text, '-') == parts && |parts| == 3 && ValidDate(d)
    requires ParseInt(parts[0]) == Some(d.year) && ParseInt(parts[1]) == Some(d.month)
    requires ParseInt(parts[2]) == Some(d.day)
    ensures ParseDate(text) == Some(d)
  {
  }

  /**
   * Only the first three pieces matter: whatever follows a third `-` never changes
   * whether the date is accepted or which date it is.
   */
  lemma ParseDateExtraPieces(a: string, b: string, c: string, rest: string)
    requires '-' !in a && '-' !in b && '-' !in c
    ensures ParseDate(a + "-" + b + "-" + c + "-" + rest) == ParseDate(a + "-" + b + "-" + c)
  {
    SplitThree(a, b, c, '-');
    var tail := c + ['-'] + rest;
    var mid := b + ['-'] + tail;
    assert a + "-" + b + "-" + c + "-" + rest == a + ['-'] + mid;
    SplitPrefix(c, rest, '-');
    SplitPrefix(b, tail, '-');
    SplitPrefix(a, mid, '-');
    var parts := Split(a + ['-'] + mid, '-');
    assert parts == [a] + ([b] + ([c] + Split(rest, '-')));
    assert parts[0] == a && parts[1] == b && parts[2] == c;
  }

  /** Chronological order: `a` is strictly earlier than `b`. */
  predicate Earlier(a: Date, b: Date) {
    a.year < b.year || (a.year == b.year && (a.month < b.month || (a.month == b.month && a.day < b.day)))
  }

  /** `a <= b` on dates, as SQL compares a `Date` column. */
  predicate NotLater(a: Date, b: Date) {
    a == b || Earlier(a, b)
  }

  /** Chronological order is a strict total order. */
  lemma EarlierTotal(a: Date, b: Date, c: Date)
    ensures !Earlier(a, a)
    ensures Earlier(a, b) ==> !Earlier(b, a)
    ensures Earlier(a, b) && Earlier(b, c) ==> Earlier(a, c)
    ensures a == b || Earlier(a, b) || Earlier(b, a)
  {
  }

  function DaysInYear(y: int): int {
    if IsLeap(y) then 366 else 365
  }

  /** Days from 0001-01-01 to the first day of year `y`. */
  function DaysBeforeYear(y: int): (n: nat)
    requires y >= 1
  {
    if y == 1 then 0 else DaysBeforeYear(y - 1) + DaysInYear(y - 1)
  }

  /** Days from the first of January of `y` to the first day of month `m`. */
  function DaysBeforeMonth(y: int, m: int): (n: nat)
    requires 1 <= m <= 13
  {
    if m == 1 then 0 else DaysBeforeMonth(y, m - 1) + DaysInMonth(y, m - 1)
  }

  /**
   * Day number of a valid date, 0 for 0001-01-01. JavaScript's `new Date("YYYY-MM-DD")`
   * is midnight UTC of that day, so its time value is a fixed offset plus
   * 86400000 times this number; the client's date sorts are sorts by this key.
   */
  function DayNumber(d: Date): int
    requires ValidDate(d)
  {
    DaysBeforeYear(d.year) + DaysBeforeMonth(d.year, d.month) + d.day - 1
  }

  lemma {:induction false} DaysBeforeMonthMono(y: int, m: int, n: int)
    requires 1 <= m <= n <= 13
    ensures DaysBeforeMonth(y, m) <= DaysBeforeMonth(y, n)
    ensures m < n ==> DaysBeforeMonth(y, m) + DaysInMonth(y, m) <= DaysBeforeMonth(y, n)
    decreases n - m
  {
    if m < n {
      DaysBeforeMonthMono(y, m + 1, n);
    }
  }

  lemma DaysBeforeMonthYear(y: int)
    ensures DaysBeforeMonth(y, 13) == DaysInYear(y)
  {
    var f := DaysInMonth(y, 2);
    assert DaysBeforeMonth(y, 2) == 31;
    assert DaysBeforeMonth(y, 3) == 31 + f;
    assert DaysBeforeMonth(y, 4) == 62 + f;
    assert DaysBeforeMonth(y, 5) == 92 + f;
    assert DaysBeforeMonth(y, 6) == 123 + f;
    assert DaysBeforeMonth(y, 7) == 153 + f;
    assert DaysBeforeMonth(y, 8) == 184 + f;
    assert DaysBeforeMonth(y, 9) == 215 + f;
    assert DaysBeforeMonth(y, 10) == 245 + f;
    assert DaysBeforeMonth(y, 11) == 276 + f;
    assert DaysBeforeMonth(y, 12) == 306 + f;
  }

  lemma {:induction false} DaysBeforeYearMono(y: int, z: int)
    requires 1 <= y < z
    ensures DaysBeforeYear(y) + DaysInYear(y) <= DaysBeforeYear(z)
    decreases z - y
  {
    if y + 1 < z {
      DaysBeforeYearMono(y + 1, z);
    }
  }

  /** A valid date's offset inside its year is less than the year's length. */
  lemma DayOfYearBound(d: Date)
    requires ValidDate(d)
    ensures DaysBeforeMonth(d.year, d.month) + d.day - 1 < DaysInYear(d.year)
  {
    DaysBeforeMonthMono(d.year, d.month, 13);
    DaysBeforeMonthYear(d.year);
  }

  /** Day numbers order valid dates exactly as the calendar does. */
  lemma DayNumberOrder(a: Date, b: Date)
    requires ValidDate(a) && ValidDate(b)
    ensures DayNumber(a) < DayNumber(b) <==> Earlier(a, b)
    ensures DayNumber(a) == DayNumber(b) <==> a == b
  {
    if Earlier(a, b) {
      EarlierDayNumber(a, b);
    } else if Earlier(b, a) {
      EarlierDayNumber(b, a);
    }
  }

  lemma EarlierDayNumber(a: Date, b: Date)
    requires ValidDate(a) && ValidDate(b) && Earlier(a, b)
    ensures DayNumber(a) < DayNumber(b)
  {
    if a.year < b.year {
      DayOfYearBound(a);
      DaysBeforeYearMono(a.year, b.year);
    } else if a.month < b.month {
      DaysBeforeMonthMono(a.year, a.month, b.month);
    }
  }
}
