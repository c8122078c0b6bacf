/**
 * Calendar arithmetic behind the Excel date fix of `load_data`: a serial
 * number counts days from the origin 1899-12-30 (serial 0) in the proleptic
 * Gregorian calendar, so 1900-01-01 is serial 2.
 *
 * `SerialOf` is the reference: days of whole years, then of whole months,
 * then of the day itself. `SerialToDate` computes the inverse in closed form
 * and is proved to be one.
 */
module Calendar {

  datatype Date = Date(year: int, month: int, day: int)

  predicate IsLeapYear(y: int)
  {
    y % 4 == 0 && (y % 100 != 0 || y % 400 == 0)
  }

  function DaysInYear(y: int): int
  {
    if IsLeapYear(y) then 366 else 365
  }

  function DaysInMonth(y: int, m: int): int
    requires 1 <= m <= 12
  {
    if m == 2 then (if IsLeapYear(y) then 29 else 28)
    else if m == 4 || m == 6 || m == 9 || m == 11 then 30
    else 31
  }

  predicate ValidDate(d: Date)
  {
    1 <= d.month <= 12 && 1 <= d.day <= DaysInMonth(d.year, d.month)
  }

  /** Days from January 1 of year y to the first day of month m (m == 13: the whole year). */
  function DaysBeforeMonth(y: int, m: int): int
    requires 1 <= m <= 13
  {
    [0, 31, 59, 90, 120, 151, 181, 212, 243, 273, 304, 334, 365][m - 1]
      + (if m > 2 && IsLeapYear(y) then 1 else 0)
  }

  /** Leap years among years 1 .. y - 1 (negative when y < 1). */
  function LeapYearsBefore(y: int): int
  {
    (y - 1) / 4 - (y - 1) / 100 + (y - 1) / 400
  }

  /** Serial number of January 1 of year y. */
  function YearStart(y: int): int
  {
    365 * (y - 1900) + LeapYearsBefore(y) - LeapYearsBefore(1900) + 2
  }

  /** Serial number of a date: days elapsed since 1899-12-30. */
  function SerialOf(d: Date): int
    requires 1 <= d.month <= 12
  {
    YearStart(d.year) + DaysBeforeMonth(d.year, d.month) + d.day - 1
  }

  // ----- facts about the reference -----

  lemma MonthStep(y: int, m: int)
    requires 1 <= m <= 12
    ensures DaysBeforeMonth(y, m + 1) == DaysBeforeMonth(y, m) + DaysInMonth(y, m)
    ensures DaysBeforeMonth(y, 13) == DaysInYear(y)
  {
  }

  lemma DivStep(k: int)
    ensures k / 4 - (k - 1) / 4 == if k % 4 == 0 then 1 else 0
    ensures k / 100 - (k - 1) / 100 == if k % 100 == 0 then 1 else 0
    ensures k / 400 - (k - 1) / 400 == if k % 400 == 0 then 1 else 0
    ensures k % 100 == 0 ==> k % 4 == 0
    ensures k % 400 == 0 ==> k % 100 == 0
  {
  }

  /** The year starting after y starts DaysInYear(y) days later. */
  lemma YearStep(y: int)
    ensures YearStart(y + 1) == YearStart(y) + DaysInYear(y)
  {
    DivStep(y);
  }

  lemma {:induction false} YearStartMonotone(y1: int, y2: int)
    requires y1 <= y2
    ensures YearStart(y1) <= YearStart(y2)
    decreases y2 - y1
  {
    if y1 < y2 {
      YearStep(y1);
      YearStartMonotone(y1 + 1, y2);
    }
  }

  /** 400 * LeapYearsBefore(y) stays within a fixed distance of 97 * (y - 1). */
  lemma LeapYearsBounds(y: int)
    ensures 97 * (y - 1) - 800 < 400 * LeapYearsBefore(y) < 97 * (y - 1) + 400
  {
  }

  /** The start of year y lies within 1.5 days of 365.2425 * (y - 1900) + 2. */
  lemma YearStartBounds(y: int)
    ensures 146097 * (y - 1900) - 597 < 400 * (YearStart(y) - 2) < 146097 * (y - 1900) + 603
  {
    LeapYearsBounds(y);
    assert LeapYearsBefore(1900) == 460;
  }

  // ----- the inverse -----

  /** The year in which serial n falls. */
  function YearOf(n: int): (y: int)
    ensures YearStart(y) <= n < YearStart(y + 1)
  {
    var y0 := 1900 + (400 * (n - 2)) / 146097;
    YearStartBounds(y0 - 1);
    YearStartBounds(y0 + 2);
    YearStep(y0 - 1);
    YearStep(y0);
    YearStep(y0 + 1);
    if n < YearStart(y0) then y0 - 1
    else if n < YearStart(y0 + 1) then y0
    else y0 + 1
  }

  /** The month, searched downward from m, in which day r (0-based) of year y falls. */
  function MonthFrom(y: int, r: int, m: int): (k: int)
    requires 1 <= m <= 12 && 0 <= r < DaysBeforeMonth(y, m + 1)
    ensures 1 <= k <= m
    ensures DaysBeforeMonth(y, k) <= r < DaysBeforeMonth(y, k + 1)
    decreases m
  {
    if DaysBeforeMonth(y, m) <= r then m else MonthFrom(y, r, m - 1)
  }

  /** The date lying n days after 1899-12-30. */
  function SerialToDate(n: int): (d: Date)
    ensures ValidDate(d) && SerialOf(d) == n
  {
    var y := YearOf(n);
    YearStep(y);
    MonthStep(y, 12);
    var r := n - YearStart(y);
    var m := MonthFrom(y, r, 12);
    MonthStep(y, m);
    Date(y, m, r - DaysBeforeMonth(y, m) + 1)
  }

  /** Only one year contains a given serial number. */
  lemma YearUnique(y1: int, y2: int, n: int)
    requires YearStart(y1) <= n < YearStart(y1 + 1)
    requires YearStart(y2) <= n < YearStart(y2 + 1)
    ensures y1 == y2
  {
    if y1 < y2 {
      YearStartMonotone(y1 + 1, y2);
    } else if y2 < y1 {
      YearStartMonotone(y2 + 1, y1);
    }
  }

  /** Only one month of a year contains a given day of that year. */
  lemma MonthUnique(y: int, m1: int, m2: int, r: int)
    requires 1 <= m1 <= 12 && 1 <= m2 <= 12
    requires DaysBeforeMonth(y, m1) <= r < DaysBeforeMonth(y, m1 + 1)
    requires DaysBeforeMonth(y, m2) <= r < DaysBeforeMonth(y, m2 + 1)
    ensures m1 == m2
  {
    if m1 < m2 {
      MonthsMonotone(y, m1 + 1, m2);
    } else if m2 < m1 {
      MonthsMonotone(y, m2 + 1, m1);
    }
  }

  lemma MonthsMonotone(y: int, m1: int, m2: int)
    requires 1 <= m1 <= m2 <= 13
    ensures DaysBeforeMonth(y, m1) <= DaysBeforeMonth(y, m2)
  {
  }

  /** A valid date falls inside its own year, and inside its own month of that year. */
  lemma SerialWithinYear(d: Date)
    requires ValidDate(d)
    ensures YearStart(d.year) <= SerialOf(d) < YearStart(d.year + 1)
    ensures DaysBeforeMonth(d.year, d.month) <= SerialOf(d) - YearStart(d.year) < DaysBeforeMonth(d.year, d.month + 1)
  {
    MonthStep(d.year, d.month);
    MonthsMonotone(d.year, d.month + 1, 13);
    MonthStep(d.year, 12);
    YearStep(d.year);
  }

  /** Every valid date is recovered from its serial number: the two are a bijection. */
  lemma SerialToDateOfSerial(d: Date)
    requires ValidDate(d)
    ensures SerialToDate(SerialOf(d)) == d
  {
    var e := SerialToDate(SerialOf(d));
    SerialWithinYear(d);
    SerialWithinYear(e);
    YearUnique(d.year, e.year, SerialOf(d));
    MonthUnique(d.year, d.month, e.month, SerialOf(d) - YearStart(d.year));
  }

  /** Distinct valid dates have distinct serial numbers. */
  lemma SerialOfInjective(d1: Date, d2: Date)
    requires ValidDate(d1) && ValidDate(d2) && SerialOf(d1) == SerialOf(d2)
    ensures d1 == d2
  {
    SerialToDateOfSerial(d1);
    SerialToDateOfSerial(d2);
  }

  lemma KnownSerials()
    ensures SerialOf(Date(1899, 12, 30)) == 0 && SerialOf(Date(1900, 1, 1)) == 2
    ensures SerialOf(Date(1970, 1, 1)) == 25569 && SerialOf(Date(2023, 3, 15)) == 45000
  {
  }

  /** Serial 0 is the origin itself. */
  lemma OriginExample()
    ensures SerialToDate(0) == Date(1899, 12, 30)
  {
    KnownSerials();
    SerialToDateOfSerial(Date(1899, 12, 30));
  }

  /** Serial 2 is the first day of 1900. */
  lemma FirstDayOf1900Example()
    ensures SerialToDate(2) == Date(1900, 1, 1)
  {
    KnownSerials();
    SerialToDateOfSerial(Date(1900, 1, 1));
  }

  /** Serial 25569 is the Unix epoch. */
  lemma EpochExample()
    ensures SerialToDate(25569) == Date(1970, 1, 1)
  {
    KnownSerials();
    SerialToDateOfSerial(Date(1970, 1, 1));
  }

  /** Serial 45000 is 15 March 2023. */
  lemma RecentExample()
    ensures SerialToDate(45000) == Date(2023, 3, 15)
  {
    KnownSerials();
    SerialToDateOfSerial(Date(2023, 3, 15));
  }
}
