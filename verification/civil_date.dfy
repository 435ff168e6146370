/** The report's timestamp: days and seconds since 1970-01-01 turned into a calendar date
    (sections 5.6 and 5.7 and Appendix C of RFC 3339). */
module CivilDate {

  datatype Date = Date(year: nat, month: nat, day: nat)

  predicate IsLeap(year: int) {
    (year % 4 == 0 && year % 100 != 0) || year % 400 == 0
  }

  function DaysInYear(year: int): int {
    if IsLeap(year) then 366 else 365
  }

  function DaysInMonth(year: int, month: nat): int
    requires 1 <= month <= 12
  {
    if month == 2 then (if IsLeap(year) then 29 else 28)
    else if month == 4 || month == 6 || month == 9 || month == 11 then 30
    else 31
  }

  predicate IsValid(date: Date) {
    1 <= date.month <= 12 && 1 <= date.day <= DaysInMonth(date.year, date.month)
  }

  /** Days from 1970-01-01 to the first of January of a later year, by the closed Gregorian count
      of the leap years before it. */
  function DaysBeforeYear(year: int): int {
    365 * (year - 1970) + LeapsThrough(year - 1) - LeapsThrough(1969)
  }

  /** Leap years from year 1 through `year`. */
  function LeapsThrough(year: int): int {
    year / 4 - year / 100 + year / 400
  }

  function DaysBeforeMonth(year: int, month: nat): int
    requires 1 <= month <= 13
  {
    if month == 1 then 0 else DaysBeforeMonth(year, month - 1) + DaysInMonth(year, month - 1)
  }

  /** Days from 1970-01-01 to a date. */
  function DaysFromEpoch(date: Date): int
    requires 1 <= date.month <= 12
  {
    DaysBeforeYear(date.year) + DaysBeforeMonth(date.year, date.month) + date.day - 1
  }

  lemma By4(y: int)
    ensures y / 4 == (y - 1) / 4 + (if y % 4 == 0 then 1 else 0)
  {
    var k, r := y / 4, y % 4;
    assert y - 1 == if r == 0 then 4 * (k - 1) + 3 else 4 * k + (r - 1);
  }

  lemma By100(y: int)
    ensures y / 100 == (y - 1) / 100 + (if y % 100 == 0 then 1 else 0)
  {
    var k, r := y / 100, y % 100;
    assert y - 1 == if r == 0 then 100 * (k - 1) + 99 else 100 * k + (r - 1);
  }

  lemma By400(y: int)
    ensures y / 400 == (y - 1) / 400 + (if y % 400 == 0 then 1 else 0)
  {
    var k, r := y / 400, y % 400;
    assert y - 1 == if r == 0 then 400 * (k - 1) + 399 else 400 * k + (r - 1);
  }

  lemma HundredsAreFours(y: int)
    requires y % 100 == 0
    ensures y % 4 == 0
  {
    var k := y / 100;
    assert y == 4 * (25 * k);
  }

  lemma FourHundredsAreHundreds(y: int)
    requires y % 400 == 0
    ensures y % 100 == 0
  {
    var k := y / 400;
    assert y == 100 * (4 * k);
  }

  lemma LeapStep(year: int)
    ensures LeapsThrough(year) == LeapsThrough(year - 1) + (if IsLeap(year) then 1 else 0)
  {
    By4(year);
    By100(year);
    By400(year);
    if year % 100 == 0 {
      HundredsAreFours(year);
    }
    if year % 400 == 0 {
      FourHundredsAreHundreds(year);
    }
  }

  lemma NextYear(year: int)
    ensures DaysBeforeYear(year + 1) == DaysBeforeYear(year) + DaysInYear(year)
  {
    hide LeapsThrough;
    LeapStep(year);
  }

  lemma WholeYear(year: int)
    ensures DaysBeforeMonth(year, 13) == DaysInYear(year)
  {
    var leap := DaysInYear(year) - 365;
    assert DaysBeforeMonth(year, 2) == 31;
    assert DaysBeforeMonth(year, 3) == 59 + leap;
    assert DaysBeforeMonth(year, 5) == 120 + leap;
    assert DaysBeforeMonth(year, 7) == 181 + leap;
    assert DaysBeforeMonth(year, 9) == 243 + leap;
    assert DaysBeforeMonth(year, 11) == 304 + leap;
  }

  /** The months of a year as the program's table lists them. */
  function MonthsDays(year: int): (t: seq<int>)
    ensures |t| == 12 && forall i :: 0 <= i < 12 ==> t[i] == DaysInMonth(year, i + 1)
  {
    if IsLeap(year) then [31, 29, 31, 30, 31, 30, 31, 31, 30, 31, 30, 31]
    else [31, 28, 31, 30, 31, 30, 31, 31, 30, 31, 30, 31]
  }

  /** The valid date that many days after 1970-01-01. */
  method DaysToDate(days: nat) returns (date: Date)
    ensures IsValid(date) && date.year >= 1970 && DaysFromEpoch(date) == days
  {
    hide IsLeap, LeapsThrough, DaysInMonth, DaysBeforeYear;
    var y, d := 1970, days;
    assert DaysBeforeYear(1970) == 0 by { EpochYear(); }
    while d >= DaysInYear(y)
      invariant y >= 1970 && d >= 0 && DaysBeforeYear(y) + d == days
      decreases d
    {
      NextYear(y);
      d := d - DaysInYear(y);
      y := y + 1;
    }
    ghost var inYear := d;
    var monthsDays := MonthsDays(y);
    WholeYear(y);
    var m := 0;
    for i := 0 to 12
      invariant d >= 0 && DaysBeforeMonth(y, i + 1) + d == inYear
    {
      if d < monthsDays[i] {
        m := i;
        break;
      }
      d := d - monthsDays[i];
    }
    date := Date(y, m + 1, d + 1);
  }

  lemma EpochYear()
    ensures DaysBeforeYear(1970) == 0
  {
  }

  // ----- the map is strictly increasing -----

  predicate Earlier(a: Date, b: Date) {
    || a.year < b.year
    || (a.year == b.year && a.month < b.month)
    || (a.year == b.year && a.month == b.month && a.day < b.day)
  }

  lemma {:induction false} LaterYear(y: int, z: int)
    requires y < z
    ensures DaysBeforeYear(y) + DaysInYear(y) <= DaysBeforeYear(z)
    decreases z - y
  {
    hide LeapsThrough, IsLeap, DaysBeforeYear;
    NextYear(y);
    if y + 1 < z {
      LaterYear(y + 1, z);
    }
  }

  lemma {:induction false} LaterMonth(year: int, m: nat, n: nat)
    requires 1 <= m < n <= 13
    ensures DaysBeforeMonth(year, m) + DaysInMonth(year, m) <= DaysBeforeMonth(year, n)
  {
    if m < n - 1 {
      LaterMonth(year, m, n - 1);
    }
  }

  lemma WithinYear(a: Date)
    requires IsValid(a)
    ensures DaysBeforeYear(a.year) <= DaysFromEpoch(a) < DaysBeforeYear(a.year) + DaysInYear(a.year)
  {
    hide IsLeap, LeapsThrough, DaysBeforeYear, DaysInMonth;
    WholeYear(a.year);
    LaterMonth(a.year, a.month, 13);
    if a.month > 1 {
      LaterMonth(a.year, 1, a.month);
      assert DaysInMonth(a.year, 1) >= 0 by { assert DaysInMonth(a.year, 1) == 31 by { January(a.year); } }
    }
  }

  lemma January(year: int)
    ensures DaysInMonth(year, 1) == 31
  {
  }

  lemma EarlierCountsLess(a: Date, b: Date)
    requires IsValid(a) && IsValid(b) && Earlier(a, b)
    ensures DaysFromEpoch(a) < DaysFromEpoch(b)
  {
    hide IsLeap, LeapsThrough, DaysBeforeYear, DaysInMonth, DaysBeforeMonth;
    if a.year < b.year {
      WithinYear(a);
      WithinYear(b);
      LaterYear(a.year, b.year);
    } else if a.month < b.month {
      LaterMonth(a.year, a.month, b.month);
    }
  }

  /** The day count orders valid dates, so each count belongs to one date only and later days give later dates. */
  lemma CountOrdersDates(a: Date, b: Date)
    requires IsValid(a) && IsValid(b)
    ensures Earlier(a, b) <==> DaysFromEpoch(a) < DaysFromEpoch(b)
    ensures a == b <==> DaysFromEpoch(a) == DaysFromEpoch(b)
  {
    if Earlier(a, b) {
      EarlierCountsLess(a, b);
    } else if Earlier(b, a) {
      EarlierCountsLess(b, a);
    }
  }

  // ----- the whole timestamp -----

  datatype Timestamp = Timestamp(date: Date, hours: nat, minutes: nat, seconds: nat)

  /** Splits a count of seconds; putting the pieces together gives the count back. */
  method FormatTimestamp(secs: nat) returns (t: Timestamp)
    ensures IsValid(t.date) && t.hours < 24 && t.minutes < 60 && t.seconds < 60
    ensures DaysFromEpoch(t.date) * 86400 + t.hours * 3600 + t.minutes * 60 + t.seconds == secs
  {
    hide DaysFromEpoch, DaysInMonth;
    var days := secs / 86400;
    var timeSecs := secs % 86400;
    var date := DaysToDate(days);
    t := Timestamp(date, timeSecs / 3600, timeSecs % 3600 / 60, timeSecs % 60);
    assert timeSecs % 60 == timeSecs % 3600 % 60;
  }
}
