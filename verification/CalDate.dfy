/**
  Whole-day conversion between calendar dates and Julian day numbers, across the
  calendar reform of October 1582 (caldate.c).

  Whole days only are modelled.  Every constant of the C code is then an exact
  rational, so a floating-point expression that is converted to long becomes an exact
  quotient truncated towards zero.  Years are astronomical: 1 BC is year 0.
 */
module CalDate {

  // ---------------------------------------------------------------- C arithmetic

  /** The exact quotient n / d converted to long: truncated towards zero. */
  function Trunc(n: int, d: int): int
    requires d > 0
  {
    if n >= 0 then n / d else -((-n) / d)
  }

  /** C's n % d for a positive divisor. */
  function Rem(n: int, d: int): int
    requires d > 0
  {
    n - d * Trunc(n, d)
  }

  // ------------------------------------------- the calendar, independent of the code

  datatype Date = Date(year: int, month: int, day: int)

  /** On or after 15 October 1582. */
  predicate Gregorian(d: Date) {
    d.year > 1582 || (d.year == 1582 && (d.month > 10 || (d.month == 10 && d.day >= 15)))
  }

  predicate Leap(y: int) {
    y % 4 == 0 && (y > 1582 ==> y % 100 != 0 || y % 400 == 0)
  }

  function MonthLength(y: int, m: int): int {
    if m == 2 then (if Leap(y) then 29 else 28)
    else if m == 4 || m == 6 || m == 9 || m == 11 then 30
    else 31
  }

  /** A date that occurred: the ten days skipped by the reform did not. */
  predicate RealDate(d: Date) {
    && 1 <= d.month <= 12
    && 1 <= d.day <= MonthLength(d.year, d.month)
    && !(d.year == 1582 && d.month == 10 && 5 <= d.day <= 14)
  }

  /** The day after d. */
  function Successor(d: Date): (r: Date)
    requires RealDate(d)
    ensures RealDate(r) && Before(d, r)
  {
    if d == Date(1582, 10, 4) then Date(1582, 10, 15)
    else if d.day < MonthLength(d.year, d.month) then d.(day := d.day + 1)
    else if d.month < 12 then Date(d.year, d.month + 1, 1)
    else Date(d.year + 1, 1, 1)
  }

  predicate Before(d: Date, e: Date) {
    d.year < e.year || (d.year == e.year && (d.month < e.month || (d.month == e.month && d.day < e.day)))
  }

  /** Days of year y before the first of month m, were no day skipped. */
  function DaysBeforeMonth(y: int, m: int): int {
    if m <= 1 then 0
    else if m == 2 then 31
    else (if Leap(y) then 1 else 0) +
         (if m == 3 then 59 else if m == 4 then 90 else if m == 5 then 120 else if m == 6 then 151
          else if m == 7 then 181 else if m == 8 then 212 else if m == 9 then 243 else if m == 10 then 273
          else if m == 11 then 304 else 334)
  }

  /** The day number of the last day of year y - 1. */
  function DaysBeforeYear(y: int): int {
    365 * y + (y + 3) / 4 +
    (if y > 1582 then 1721059 - (y + 99) / 100 + (y + 399) / 400 else 1721057)
  }

  /** The Julian day number of a date, counted year by year and month by month. */
  function DayNumber(d: Date): int {
    DaysBeforeYear(d.year) + DaysBeforeMonth(d.year, d.month) + d.day
    - (if d.year == 1582 && Gregorian(d) then 10 else 0)
  }

  /** DayNumber counts days: consecutive days get consecutive numbers. */
  lemma DayNumberCounts(d: Date)
    requires RealDate(d)
    ensures DayNumber(Successor(d)) == DayNumber(d) + 1
  {
    if d.month == 12 && d.day == 31 {
      YearLength(d.year);
    }
  }

  /** The multiples of k met when y is passed. */
  lemma QuotientStep(y: int, k: int)
    requires k == 4 || k == 100 || k == 400
    ensures (y + k) / k - (y + k - 1) / k == if y % k == 0 then 1 else 0
  {
  }

  /** A year has 365 or 366 days, and the year of the reform ten fewer. */
  lemma YearLength(y: int)
    ensures DaysBeforeYear(y + 1) - DaysBeforeYear(y)
         == 365 + (if Leap(y) then 1 else 0) - (if y == 1582 then 10 else 0)
  {
    QuotientStep(y, 4);
    if y > 1582 {
      QuotientStep(y, 100);
      QuotientStep(y, 400);
      LeapDays(y);
    }
  }

  lemma LeapDays(y: int)
    ensures y % 400 == 0 ==> y % 100 == 0
    ensures y % 100 == 0 ==> y % 4 == 0
  {
    if y % 400 == 0 {
      ModIs(y, 4 * (y / 400), 0, 100);
    }
    if y % 100 == 0 {
      ModIs(y, 25 * (y / 100), 0, 4);
    }
  }

  lemma ModIs(n: int, q: int, r: int, m: int)
    requires m == 4 || m == 100 || m == 400
    requires n == m * q + r && 0 <= r < m
    ensures n % m == r
  {
  }

  lemma {:induction false} YearsGrow(y: int, z: int)
    requires y < z
    ensures DaysBeforeYear(z) - DaysBeforeYear(y) >= 355 + (if y == 1582 then 0 else 10)
    decreases z - y
  {
    YearLength(z - 1);
    if y < z - 1 {
      YearsGrow(y, z - 1);
    }
  }

  lemma DayOfYearBounds(d: Date)
    requires RealDate(d)
    ensures 1 <= DayNumber(d) - DaysBeforeYear(d.year)
    ensures DaysBeforeYear(d.year + 1) >= DayNumber(d)
  {
    YearLength(d.year);
  }

  lemma DayNumberMonotone(d: Date, e: Date)
    requires RealDate(d) && RealDate(e) && Before(d, e)
    ensures DayNumber(d) < DayNumber(e)
  {
    DayOfYearBounds(d);
    DayOfYearBounds(e);
    if d.year + 1 < e.year {
      YearsGrow(d.year + 1, e.year);
    }
  }

  /** A day number belongs to at most one date. */
  lemma DayNumberInjective(d: Date, e: Date)
    requires RealDate(d) && RealDate(e) && DayNumber(d) == DayNumber(e)
    ensures d == e
  {
    if Before(d, e) {
      DayNumberMonotone(d, e);
    } else if Before(e, d) {
      DayNumberMonotone(e, d);
    }
  }

  // ------------------------------------------------------------------------ juldat

  /** 365.25 * iy0 truncated, with the correction made for negative years. */
  function YearDays(year: int, iy0: int): int {
    if year < 0 then Trunc(1461 * iy0 - 3, 4) else Trunc(1461 * iy0, 4)
  }

  /** gyr >= 1582.1015, for gyr = year + month / 100 + day / 10000 + 1 / 10^9. */
  predicate ReformGuard(d: Date) {
    1000000000 * d.year + 10000000 * d.month + 100000 * d.day + 1 >= 1582101500000
  }

  /** The Julian day number juldat computes: its j_date is half a day less. */
  function JulianDay(d: Date): int {
    var iy0 := if d.month <= 2 then d.year - 1 else d.year;
    var im0 := if d.month <= 2 then d.month + 12 else d.month;
    var ia := Trunc(iy0, 100);
    var ib := 2 - ia + ia / 4;
    var jd := YearDays(d.year, iy0) + Trunc(306001 * (im0 + 1), 10000) + d.day + 1720994;
    (if ReformGuard(d) then jd + ib else jd) + 1
  }

  lemma ReformGuardExact(d: Date)
    requires RealDate(d)
    ensures ReformGuard(d) <==> Gregorian(d)
  {
  }

  /** January and February of year 0, whose year 365.25 * -1 truncates the wrong way. */
  predicate YearZeroWinter(d: Date) {
    d.year == 0 && d.month <= 2
  }

  /** 30.6001 * (im0 + 1) counts the days of the months from March on. */
  lemma MonthDays(y: int, m: int)
    requires 1 <= m <= 12
    ensures Trunc(306001 * ((if m <= 2 then m + 12 else m) + 1), 10000)
         == DaysBeforeMonth(y, m) + (if m <= 2 then 428 else 63 - (if Leap(y) then 1 else 0))
  {
    if m == 1 {} else if m == 2 {} else if m == 3 {} else if m == 4 {} else if m == 5 {} else if m == 6 {}
    else if m == 7 {} else if m == 8 {} else if m == 9 {} else if m == 10 {} else if m == 11 {} else {}
  }

  lemma YearDaysFloor(year: int, iy0: int)
    requires iy0 == year || iy0 == year - 1
    ensures YearDays(year, iy0) == 365 * iy0 + iy0 / 4 + (if year == 0 && iy0 == -1 then 1 else 0)
  {
  }

  lemma CenturyDays(iy0: int)
    requires iy0 >= 0
    ensures Trunc(iy0, 100) == iy0 / 100
    ensures (iy0 / 100) / 4 == iy0 / 400
  {
  }

  /** DayNumber with the years counted from March, as Meeus counts them. */
  lemma DayNumberFromMarch(d: Date, iy0: int, im0: int)
    requires RealDate(d)
    requires (iy0, im0) == if d.month <= 2 then (d.year - 1, d.month + 12) else (d.year, d.month)
    ensures DayNumber(d)
         == 365 * iy0 + iy0 / 4 + Trunc(306001 * (im0 + 1), 10000) + d.day + 1720995
            + (if Gregorian(d) then 2 - iy0 / 100 + iy0 / 400 else 0)
  {
    MonthDays(d.year, d.month);
    YearFromMarch(d.year);
  }

  /** A year's start, and its March, by the quotients of the year the March count uses. */
  lemma YearFromMarch(y: int)
    ensures DaysBeforeYear(y) == 365 * y + (y - 1) / 4 + 1721058
            + (if y > 1582 then 2 - (y - 1) / 100 + (y - 1) / 400 else 0)
    ensures DaysBeforeYear(y) + (if Leap(y) then 1 else 0) == 365 * y + y / 4 + 1721058
            + (if y > 1582 then 2 - y / 100 + y / 400 else 0)
  {
    YearStarts(y);
    LeapDays(y);
  }

  lemma YearStarts(y: int)
    ensures (y + 3) / 4 == (y - 1) / 4 + 1
    ensures (y + 99) / 100 == (y - 1) / 100 + 1
    ensures (y + 399) / 400 == (y - 1) / 400 + 1
    ensures y / 4 - (y - 1) / 4 == if y % 4 == 0 then 1 else 0
    ensures y / 100 - (y - 1) / 100 == if y % 100 == 0 then 1 else 0
    ensures y / 400 - (y - 1) / 400 == if y % 400 == 0 then 1 else 0
  {
    QuotientStep(y, 4);
    QuotientStep(y, 100);
    QuotientStep(y, 400);
  }

  /**
    juldat computes the day number of every date except those of the first two months
    of year 0, for which it is one too large.
   */
  lemma JulianDayExact(d: Date)
    requires RealDate(d)
    ensures JulianDay(d) == DayNumber(d) <==> !YearZeroWinter(d)
    ensures YearZeroWinter(d) ==> JulianDay(d) == DayNumber(d) + 1
  {
    var iy0 := if d.month <= 2 then d.year - 1 else d.year;
    var im0 := if d.month <= 2 then d.month + 12 else d.month;
    ReformGuardExact(d);
    DayNumberFromMarch(d, iy0, im0);
    YearDaysFloor(d.year, iy0);
    if Gregorian(d) {
      CenturyDays(iy0);
    }
  }

  // ------------------------------------------------------------------------ caldat

  /** jd with the leap days dropped by the Gregorian rule put back. */
  function Realigned(jd: int): int {
    if jd >= 2299161 then
      var ialp := Trunc(100 * jd - 186721625, 3652425);
      jd + 1 + ialp - ialp / 4
    else jd
  }

  /** The date of a day kb that is day kb - kd of the year kc, in the month ke. */
  function DateOfParts(kb: int, kc: int, kd: int, ke: int): Date {
    var day := kb - kd - Trunc(306001 * ke, 10000);
    var month := if ke > 13 then ke - 13 else ke - 1;
    var clamped := if month == 2 && day > 28 then 29 else day;
    var year := if month == 2 && clamped == 29 && ke == 3 then kc - 4716
                else if month > 2 then kc - 4716
                else kc - 4715;
    Date(year, month, clamped)
  }

  /** The date of kb, a realigned day number counted from the year -4716. */
  function DateOfRealigned(kb: int): Date {
    var kc := Trunc(20 * kb - 2442, 7305);
    var kd := Trunc(1461 * kc, 4);
    var ke := Trunc(10000 * (kb - kd), 306001);
    DateOfParts(kb, kc, kd, ke)
  }

  /** The date caldat computes for a Julian day number. */
  function CivilDate(jd: int): Date {
    DateOfRealigned(Realigned(jd) + 1524)
  }

  /** 29 February of the year -4716; caldat is right on every day from here on. */
  const FIRST_DAY := -1402

  /** The days caldat converts correctly: before FIRST_DAY one in four years, a 29 February. */
  predicate Convertible(jd: int) {
    jd >= FIRST_DAY || (jd - FIRST_DAY) % 1461 == 0
  }

  /** The year of kb, counted from March of the year -4716, and its days so far. */
  lemma YearSplit(kb: int)
    requires kb >= 123
    ensures var kc := Trunc(20 * kb - 2442, 7305);
            var r := kb - Trunc(1461 * kc, 4);
            0 <= kc && 123 <= r <= 488 && (r == 488 ==> kc % 4 == 3)
  {
    var kc := (20 * kb - 2442) / 7305;
    assert 7305 * kc <= 20 * kb - 2442 < 7305 * kc + 7305;
    var q := 1461 * kc / 4;
    assert 4 * q <= 1461 * kc < 4 * q + 4;
    assert 1461 * kc % 4 == kc % 4;
  }

  /** The month of a day of a year counted from March, and the day of that month. */
  lemma MonthSplit(r: int)
    requires 123 <= r <= 488
    ensures var ke := Trunc(10000 * r, 306001);
            var day := r - Trunc(306001 * ke, 10000);
            4 <= ke <= 15 && 1 <= day <= 31
            && (ke == 15 ==> day <= 29 && (day == 29 <==> r == 488))
            && (ke == 5 || ke == 7 || ke == 10 || ke == 12 ==> day <= 30)
  {
    var ke := 10000 * r / 306001;
    assert 306001 * ke <= 10000 * r < 306001 * ke + 306001;
    assert 4 <= ke <= 15;
    if ke == 4 {} else if ke == 5 {} else if ke == 6 {} else if ke == 7 {} else if ke == 8 {} else if ke == 9 {}
    else if ke == 10 {} else if ke == 11 {} else if ke == 12 {} else if ke == 13 {} else if ke == 14 {} else {}
  }

  /** The Gregorian century of jd, counted from March of the year 400, and its days so far. */
  lemma CenturySplit(jd: int, ialp: int, e: int)
    requires jd >= 2299161
    requires ialp == Trunc(100 * jd - 186721625, 3652425)
    requires e == Realigned(jd) - 1867218 - 36525 * ialp
    ensures ialp >= 11
    ensures 0 <= e <= 36524
    ensures e == 36524 ==> ialp % 4 == 3
  {
    var n := jd - 1867217;
    assert ialp == (4 * n + 3) / 146097 by {
      assert 100 * jd - 186721625 == 25 * (4 * n + 3);
      assert 3652425 * ialp <= 25 * (4 * n + 3) < 3652425 * ialp + 3652425;
    }
    assert 146097 * ialp <= 4 * n + 3 < 146097 * ialp + 146097;
    assert ialp == 4 * (ialp / 4) + ialp % 4;
    assert e == n - 36524 * ialp - ialp / 4;
  }

  /** The year of a day of a realigned century. */
  lemma YearInCentury(ialp: int, e: int, kb: int)
    requires ialp >= 11 && 0 <= e <= 36524
    requires kb == 1868742 + 36525 * ialp + e
    ensures var kc := Trunc(20 * kb - 2442, 7305);
            var r := kb - Trunc(1461 * kc, 4);
            && (kc - 4716) / 100 == ialp + 4 && 0 <= kc - 5116 - 100 * ialp < 100
            && (kc - 5116 - 100 * ialp == 99 && r == 488 ==> e == 36524)
  {
    var kc := (20 * kb - 2442) / 7305;
    var y := (20 * e + 18) / 7305;
    assert kc == 5116 + 100 * ialp + y by {
      assert 20 * kb - 2442 == 7305 * (5116 + 100 * ialp) + 20 * e + 18;
    }
    assert 0 <= y <= 99;
    assert (kc - 4716) == 100 * (ialp + 4) + y;
    if y == 99 && kb - Trunc(1461 * kc, 4) == 488 {
      assert kc == 5215 + 100 * ialp;
      assert 1461 * kc / 4 == 1904778 + 36525 * ialp;
    }
  }

  /** Which side of the reform the converted date falls on. */
  lemma ReformSide(jd: int, kc: int, r: int)
    requires jd >= -1401
    requires kc == Trunc(20 * (Realigned(jd) + 1524) - 2442, 7305)
    requires r == Realigned(jd) + 1524 - Trunc(1461 * kc, 4)
    ensures jd < 2299161 ==> kc < 6298 || (kc == 6298 && r <= 340)
    ensures jd >= 2299161 ==> kc > 6298 || (kc == 6298 && r >= 351)
  {
    var kb := Realigned(jd) + 1524;
    if jd >= 2299161 {
      var ialp := Trunc(100 * jd - 186721625, 3652425);
      CenturySplit(jd, ialp, Realigned(jd) - 1867218 - 36525 * ialp);
      assert kb >= 2300695;
    }
    assert kc == (20 * kb - 2442) / 7305;
  }

  /** The date of the parts of a day number is real. */
  lemma PartsReal(kb: int, kc: int, kd: int, ke: int)
    requires 4 <= ke <= 15
    requires 1 <= kb - kd - Trunc(306001 * ke, 10000) <= 31
    requires ke == 15 ==> kb - kd - Trunc(306001 * ke, 10000) <= (if Leap(kc - 4715) then 29 else 28)
    requires ke == 5 || ke == 7 || ke == 10 || ke == 12 ==> kb - kd - Trunc(306001 * ke, 10000) <= 30
    requires kc == 6298 && ke == 11 ==> !(5 <= kb - kd - Trunc(306001 * ke, 10000) <= 14)
    ensures RealDate(DateOfParts(kb, kc, kd, ke))
  {
  }

  lemma QuarterDays(kc: int)
    requires kc >= 0
    ensures Trunc(1461 * kc, 4) == 365 * kc + kc / 4
    ensures (kc - 4716) / 4 == kc / 4 - 1179
  {
  }

  /** The date of the parts of a day number counts back to it. */
  lemma PartsCount(kb: int, kc: int, kd: int, ke: int)
    requires 4 <= ke <= 15 && kc >= 0 && kd == Trunc(1461 * kc, 4)
    requires 1 <= kb - kd - Trunc(306001 * ke, 10000) <= 31
    requires ke == 15 ==> kb - kd - Trunc(306001 * ke, 10000) <= 29
    ensures var d := DateOfParts(kb, kc, kd, ke);
            var y := if d.month <= 2 then d.year - 1 else d.year;
            var m := if d.month <= 2 then d.month + 12 else d.month;
            && y == kc - 4716
            && 365 * y + y / 4 + Trunc(306001 * (m + 1), 10000) + d.day + 1720995 == kb - 1524
  {
    QuarterDays(kc);
  }

  lemma CivilDateIs(jd: int, kb: int, kc: int, kd: int, ke: int)
    requires kb == Realigned(jd) + 1524 && kc == Trunc(20 * kb - 2442, 7305) && kd == Trunc(1461 * kc, 4)
    requires ke == Trunc(10000 * (kb - kd), 306001)
    ensures CivilDate(jd) == DateOfParts(kb, kc, kd, ke)
  {
    assert CivilDate(jd) == DateOfRealigned(kb);
  }

  /** The decomposition of a day number is a real date, and counts back to it. */
  lemma CivilDateParts(jd: int)
    requires jd >= -1401
    ensures RealDate(CivilDate(jd))
    ensures Gregorian(CivilDate(jd)) <==> jd >= 2299161
    ensures var d := CivilDate(jd);
            var y := if d.month <= 2 then d.year - 1 else d.year;
            var m := if d.month <= 2 then d.month + 12 else d.month;
            && 365 * y + y / 4 + Trunc(306001 * (m + 1), 10000) + d.day + 1720995 == Realigned(jd)
            && (jd >= 2299161 ==> y / 100 == Trunc(100 * jd - 186721625, 3652425) + 4)
  {
    var kb := Realigned(jd) + 1524;
    var kc := Trunc(20 * kb - 2442, 7305);
    var kd := Trunc(1461 * kc, 4);
    var ke := Trunc(10000 * (kb - kd), 306001);
    CivilDateIs(jd, kb, kc, kd, ke);
    if jd >= 2299161 {
      var ialp := Trunc(100 * jd - 186721625, 3652425);
      var e := Realigned(jd) - 1867218 - 36525 * ialp;
      CenturySplit(jd, ialp, e);
      YearInCentury(ialp, e, kb);
    }
    YearSplit(kb);
    MonthSplit(kb - kd);
    ReformSide(jd, kc, kb - kd);
    LeapAfter(jd, kc, kb - kd);
    ReformMonth(jd, kc, kb - kd, ke);
    PartsReal(kb, kc, kd, ke);
    PartsCount(kb, kc, kd, ke);
    PartsSide(kb, kc, kd, ke);
  }

  predicate AfterReform(kc: int, ke: int, day: int) {
    kc > 6298 || (kc == 6298 && (ke > 11 || (ke == 11 && day >= 15)))
  }

  lemma PartsSide(kb: int, kc: int, kd: int, ke: int)
    requires 4 <= ke <= 15
    requires RealDate(DateOfParts(kb, kc, kd, ke))
    ensures Gregorian(DateOfParts(kb, kc, kd, ke))
       <==> AfterReform(kc, ke, kb - kd - Trunc(306001 * ke, 10000))
  {
  }

  /** The side of the reform, read off the parts. */
  lemma ReformMonth(jd: int, kc: int, r: int, ke: int)
    requires 123 <= r <= 488 && ke == Trunc(10000 * r, 306001) && 4 <= ke <= 15
    requires jd < 2299161 ==> kc < 6298 || (kc == 6298 && r <= 340)
    requires jd >= 2299161 ==> kc > 6298 || (kc == 6298 && r >= 351)
    ensures kc == 6298 && ke == 11 ==> !(5 <= r - Trunc(306001 * ke, 10000) <= 14)
    ensures jd >= 2299161 <==> AfterReform(kc, ke, r - Trunc(306001 * ke, 10000))
  {
    assert Trunc(306001 * 11, 10000) == 336;
    assert 306001 * ke <= 10000 * r < 306001 * ke + 306001;
  }

  /** A day 29 of February only ever falls in a leap year. */
  lemma LeapAfter(jd: int, kc: int, r: int)
    requires jd >= -1401
    requires kc == Trunc(20 * (Realigned(jd) + 1524) - 2442, 7305)
    requires r == Realigned(jd) + 1524 - Trunc(1461 * kc, 4)
    ensures r == 488 ==> Leap(kc - 4715)
  {
    var kb := Realigned(jd) + 1524;
    YearSplit(kb);
    if r == 488 && jd >= 2299161 {
      var ialp := Trunc(100 * jd - 186721625, 3652425);
      var e := Realigned(jd) - 1867218 - 36525 * ialp;
      CenturySplit(jd, ialp, e);
      YearInCentury(ialp, e, kb);
      LeapInCentury(kc, ialp);
    }
  }

  lemma LeapInCentury(kc: int, ialp: int)
    requires kc % 4 == 3 && 0 <= kc - 5116 - 100 * ialp < 100
    requires kc - 5116 - 100 * ialp == 99 ==> ialp % 4 == 3
    ensures Leap(kc - 4715)
  {
    var r := kc - 5116 - 100 * ialp;
    ModIs(r, kc / 4 - 1279 - 25 * ialp, 3, 4);
    CenturyLeap(ialp + 4, r);
  }

  lemma CenturyLeap(century: int, r: int)
    requires 0 <= r < 100 && r % 4 == 3 && (r == 99 ==> century % 4 == 3)
    ensures Leap(100 * century + r + 1)
  {
    var y := 100 * century + r;
    ModIs(y + 1, 25 * century + r / 4 + 1, 0, 4);
    if r == 99 {
      ModIs(y + 1, century / 4 + 1, 0, 400);
    } else {
      ModIs(y + 1, century, r + 1, 100);
    }
  }

  /** caldat gives the date that has this day number, exactly for the convertible ones. */
  lemma CivilDateExact(jd: int)
    ensures RealDate(CivilDate(jd)) && DayNumber(CivilDate(jd)) == jd <==> Convertible(jd)
  {
    if jd <= FIRST_DAY {
      EarlyDay(jd);
    } else {
      LateDay(jd);
    }
  }

  lemma LateDay(jd: int)
    requires jd > FIRST_DAY
    ensures RealDate(CivilDate(jd)) && DayNumber(CivilDate(jd)) == jd
  {
    CivilDateParts(jd);
    var d := CivilDate(jd);
    var y := if d.month <= 2 then d.year - 1 else d.year;
    var m := if d.month <= 2 then d.month + 12 else d.month;
    DayNumberFromMarch(d, y, m);
    if jd >= 2299161 {
      FourCenturies(y, Trunc(100 * jd - 186721625, 3652425));
    }
  }

  lemma FourCenturies(y: int, ialp: int)
    requires y / 100 == ialp + 4
    ensures y / 400 == ialp / 4 + 1
  {
    assert y == 100 * (ialp + 4) + y % 100;
    assert ialp == 4 * (ialp / 4) + ialp % 4;
  }

  // Before FIRST_DAY kb - 122.1 is negative, and its quotient is rounded up to the year after.

  /** The years of a day up to FIRST_DAY, and what is left: 122 only at the end of a fourth year. */
  lemma EarlyYears(jd: int, c: int, r: int)
    requires jd <= FIRST_DAY
    requires -c == Trunc(20 * (jd + 1524) - 2442, 7305) && r == jd + 1524 - Trunc(1461 * -c, 4)
    ensures c >= 0 && -245 <= r <= 122
    ensures r == jd + 1524 + 1461 * c / 4
    ensures r == 122 <==> (jd - FIRST_DAY) % 1461 == 0
  {
    var m := FIRST_DAY - jd;
    assert c == (20 * m + 2) / 7305;
    var q, e := c / 4, c % 4;
    EarlyQuarters(c, q, e);
    assert r == 122 - m + 1461 * q + 1461 * e / 4 && jd - FIRST_DAY == 0 - m;
    EarlyQuarter(m, q, e);
    EarlyFourth(m, q, e);
  }

  lemma EarlyQuarters(c: int, q: int, e: int)
    requires c == 4 * q + e && 0 <= e < 4 && c >= 0
    ensures 1461 * c / 4 == 1461 * q + 1461 * e / 4 && Trunc(1461 * -c, 4) == 0 - 1461 * c / 4
  {
    if e == 0 {} else if e == 1 {} else if e == 2 {} else {}
  }

  lemma EarlyQuarter(m: int, q: int, e: int)
    requires 0 <= e < 4 && 7305 * (4 * q + e) <= 20 * m + 2 < 7305 * (4 * q + e) + 7305
    ensures 0 <= m - 1461 * q - 1461 * e / 4 <= 367
    ensures m == 1461 * q + 1461 * e / 4 ==> e == 0
  {
    if e == 0 {} else if e == 1 {} else if e == 2 {} else {}
  }

  lemma EarlyFourth(m: int, q: int, e: int)
    requires 0 <= e < 4 && 7305 * (4 * q + e) <= 20 * m + 2 < 7305 * (4 * q + e) + 7305
    ensures m == 1461 * q + 1461 * e / 4 <==> (0 - m) % 1461 == 0
  {
    EarlyQuarter(m, q, e);
    if (0 - m) % 1461 == 0 {
      var k := (0 - m) / 1461;
      assert m == 1461 * -k;
      assert q == -k;
    }
  }

  /** The month and day of what is left, when it is less than two months and a day. */
  lemma EarlyMonth(r: int)
    requires -245 <= r <= 122
    ensures var ke := Trunc(10000 * r, 306001);
            var day := r - Trunc(306001 * ke, 10000);
            && ke <= 3 && (ke == 3 ==> r >= 92 && day == r - 91) && (ke == 2 ==> 62 <= r <= 91 && day == r - 61)
  {
    var ke := Trunc(10000 * r, 306001);
    if r < 0 {
      assert ke <= 0;
    } else {
      assert 306001 * ke <= 10000 * r < 306001 * ke + 306001;
      if ke == 3 {} else if ke == 2 {}
    }
  }

  /** The date of a day up to FIRST_DAY, from the years c before the year -4716. */
  lemma EarlyDate(jd: int, c: int, r: int)
    requires jd <= FIRST_DAY
    requires -c == Trunc(20 * (jd + 1524) - 2442, 7305) && r == jd + 1524 - Trunc(1461 * -c, 4)
    ensures c >= 0 && -245 <= r <= 122
    ensures r < 62 ==> CivilDate(jd).month < 1
    ensures 62 <= r < 92 ==> CivilDate(jd) == Date(-4715 - c, 1, r - 61)
    ensures 92 <= r < 120 ==> CivilDate(jd) == Date(-4715 - c, 2, r - 91)
    ensures r >= 120 ==> CivilDate(jd) == Date(-4716 - c, 2, 29)
  {
    EarlyYears(jd, c, r);
    EarlyMonth(r);
    var ke := Trunc(10000 * r, 306001);
    assert CivilDate(jd) == DateOfParts(jd + 1524, -c, Trunc(1461 * -c, 4), ke);
  }

  /** Up to FIRST_DAY only the days 29 February come out right, for the day number and for juldat. */
  lemma EarlyDay(jd: int)
    requires jd <= FIRST_DAY
    ensures RealDate(CivilDate(jd)) && DayNumber(CivilDate(jd)) == jd <==> Convertible(jd)
    ensures JulianDay(CivilDate(jd)) == jd <==> Convertible(jd)
  {
    var c := -Trunc(20 * (jd + 1524) - 2442, 7305);
    var r := jd + 1524 - Trunc(1461 * -c, 4);
    EarlyYears(jd, c, r);
    EarlyDate(jd, c, r);
    EarlyNumber(c);
    EarlyJulian(jd, c, r);
  }

  /** Where the years used above begin. */
  lemma EarlyNumber(c: int)
    requires c >= 0
    ensures DaysBeforeYear(-4715 - c) >= -1462 - 1461 * c / 4 + 365
    ensures var n := DaysBeforeYear(-4716 - c); -1462 - 1461 * c / 4 - 1 <= n <= -1462 - 1461 * c / 4
    ensures c % 4 == 0 ==> DaysBeforeYear(-4716 - c) == -1462 - 1461 * c / 4
  {
    var q, e := c / 4, c % 4;
    assert c == 4 * q + e;
    if e == 0 {} else if e == 1 {} else if e == 2 {} else {}
  }

  /** juldat of the date is the day again only for what is left of 122. */
  lemma EarlyJulian(jd: int, c: int, r: int)
    requires jd <= FIRST_DAY
    requires -c == Trunc(20 * (jd + 1524) - 2442, 7305) && r == jd + 1524 - Trunc(1461 * -c, 4)
    ensures JulianDay(CivilDate(jd)) == jd <==> Convertible(jd)
  {
    EarlyYears(jd, c, r);
    EarlyDate(jd, c, r);
    var d := CivilDate(jd);
  }

  // ------------------------------------------------------------- the two together

  /** caldat undoes juldat exactly on the convertible dates outside January and February of year 0. */
  lemma DateRoundTrip(d: Date)
    requires RealDate(d)
    ensures CivilDate(JulianDay(d)) == d <==> Convertible(DayNumber(d)) && !YearZeroWinter(d)
  {
    JulianDayExact(d);
    CivilDateExact(JulianDay(d));
    if YearZeroWinter(d) {
      assert DayNumber(d) >= FIRST_DAY;
    } else if Convertible(DayNumber(d)) {
      DayNumberInjective(CivilDate(JulianDay(d)), d);
    }
  }

  /** juldat undoes caldat exactly on the convertible days outside the first sixty of year 0. */
  lemma DayRoundTrip(jd: int)
    ensures JulianDay(CivilDate(jd)) == jd <==> Convertible(jd) && !(1721058 <= jd <= 1721117)
  {
    if jd <= FIRST_DAY {
      EarlyDay(jd);
    } else {
      LateRoundTrip(jd);
    }
  }

  lemma LateRoundTrip(jd: int)
    requires jd > FIRST_DAY
    ensures JulianDay(CivilDate(jd)) == jd <==> !(1721058 <= jd <= 1721117)
  {
    var d := CivilDate(jd);
    LateDay(jd);
    JulianDayExact(d);
    var first, last := Date(0, 1, 1), Date(0, 2, 29);
    assert DayNumber(first) == 1721058 && DayNumber(last) == 1721117;
    if Before(d, first) {
      DayNumberMonotone(d, first);
    } else if Before(last, d) {
      DayNumberMonotone(last, d);
    } else {
      if Before(first, d) { DayNumberMonotone(first, d); }
      if Before(d, last) { DayNumberMonotone(d, last); }
    }
  }

  /**
    juldat sends a date and its successor to consecutive integers, 4 and 15 October 1582
    included, except where it enters or leaves the two wrong months.
   */
  lemma ConsecutiveDays(d: Date)
    requires RealDate(d)
    ensures JulianDay(Successor(d)) == JulianDay(d) + 1
       <==> d != Date(-1, 12, 31) && d != Date(0, 2, 29)
  {
    DayNumberCounts(d);
    JulianDayExact(d);
    JulianDayExact(Successor(d));
  }

  // ------------------------------------------------------- weekday and day of year

  function Weekday(jd: int): int {
    Rem(jd + 1, 7)
  }

  /** The days whose weekday is not negative, as C's % makes it before day -1. */
  predicate WeekdayFits(jd: int) {
    jd >= -1 || (jd + 1) % 7 == 0
  }

  /**
    A weekday is in 0..6 exactly on those days; and it advances by one modulo seven to the next
    day exactly when that day is one of them and juldat sends the two to consecutive integers.
   */
  lemma WeekdayAdvances(d: Date)
    requires RealDate(d)
    ensures 0 <= Weekday(JulianDay(d)) <= 6 <==> WeekdayFits(JulianDay(d))
    ensures Weekday(JulianDay(Successor(d))) == (Weekday(JulianDay(d)) + 1) % 7
       <==> WeekdayFits(JulianDay(Successor(d))) && d != Date(-1, 12, 31) && d != Date(0, 2, 29)
  {
    var jd, next := JulianDay(d), JulianDay(Successor(d));
    ConsecutiveDays(d);
    WeekdayRange(jd);
    WeekdayRange(next);
    if next == jd + 1 {
      WeekdayStep(jd);
    } else {
      DayNumberCounts(d);
      JulianDayExact(d);
      JulianDayExact(Successor(d));
      assert DayNumber(Date(-1, 12, 31)) == 1721057 && DayNumber(Date(0, 2, 29)) == 1721117;
    }
  }

  lemma WeekdayRange(jd: int)
    ensures -6 <= Weekday(jd) <= 6 && (0 <= Weekday(jd) <==> WeekdayFits(jd))
  {
  }

  lemma WeekdayStep(jd: int)
    ensures Weekday(jd + 1) == (Weekday(jd) + 1) % 7 <==> WeekdayFits(jd + 1)
  {
  }

  /** The day of the week, 0 for Sunday, counted from 15 October 1582, a Friday. */
  function DayOfWeek(d: Date): int {
    (5 + DayNumber(d) - DayNumber(Date(1582, 10, 15))) % 7
  }

  /** The same less seven where C's % is negative. */
  function SignedDayOfWeek(d: Date): int {
    if WeekdayFits(DayNumber(d)) then DayOfWeek(d) else DayOfWeek(d) - 7
  }

  lemma WeekdayOfNumber(d: Date)
    ensures Weekday(DayNumber(d)) == SignedDayOfWeek(d)
  {
    var n := DayNumber(d);
    assert DayNumber(Date(1582, 10, 15)) == 2299161;
    SevenDays(n + 1, n - 2299156);
  }

  lemma CaldatWeekday(jd: int)
    ensures Convertible(jd) ==> Weekday(jd) == SignedDayOfWeek(CivilDate(jd))
  {
    CivilDateExact(jd);
    WeekdayOfNumber(CivilDate(jd));
  }

  lemma SevenDays(a: int, b: int)
    requires a - b == 7 * 328451
    ensures a % 7 == b % 7
  {
    assert a == b + 7 * 328451;
  }

  /**
    The weekday of a date is the right one exactly when it is not negative, and the right one
    less seven otherwise; in January and February of year 0 it is that of the next day.
   */
  lemma WeekdayExact(d: Date)
    requires RealDate(d)
    ensures !YearZeroWinter(d) ==> Weekday(JulianDay(d)) == SignedDayOfWeek(d)
    ensures 0 <= DayOfWeek(d) <= 6 && (SignedDayOfWeek(d) == DayOfWeek(d) <==> WeekdayFits(DayNumber(d)))
    ensures YearZeroWinter(d) ==>
              JulianDay(d) == DayNumber(d) + 1 && Weekday(JulianDay(d)) == (DayOfWeek(d) + 1) % 7
  {
    WeekdayOfNumber(d);
    JulianDayExact(d);
    if YearZeroWinter(d) {
      WinterDay(d);
      WeekdayStep(DayNumber(d));
    }
  }

  lemma JuldatWeekday(d: Date)
    ensures RealDate(d) && !YearZeroWinter(d) ==> Weekday(JulianDay(d)) == SignedDayOfWeek(d)
  {
    if RealDate(d) {
      WeekdayExact(d);
    }
  }

  lemma WinterDay(d: Date)
    requires RealDate(d) && YearZeroWinter(d)
    ensures JulianDay(d) == DayNumber(d) + 1 && DayNumber(d) >= 0
  {
  }

  /** The day of the year as caldat computes it from the date. */
  function OrdinalDay(d: Date): int {
    var doubled := Trunc(d.month + 9, 12);
    Trunc(275 * d.month, 9) - (if d.year % 4 == 0 then doubled else 2 * doubled) + d.day - 30
  }

  /** What the day of the year should be. */
  function DayOfYear(d: Date): int {
    DayNumber(d) - DayNumber(Date(d.year, 1, 1)) + 1
  }

  /** A century year that is not a leap year, which the test year % 4 takes for one. */
  predicate CommonCentury(y: int) {
    y % 4 == 0 && !Leap(y)
  }

  /**
    caldat's day of the year is right except after February of a common century year,
    where it is one too large, and after the reform within 1582, where it is ten too large.
   */
  lemma OrdinalDayExact(d: Date)
    requires RealDate(d)
    ensures OrdinalDay(d) == DayOfYear(d)
       <==> !(CommonCentury(d.year) && d.month > 2) && !(d.year == 1582 && Gregorian(d))
    ensures CommonCentury(d.year) && d.month > 2 ==> OrdinalDay(d) == DayOfYear(d) + 1
    ensures d.year == 1582 && Gregorian(d) ==> OrdinalDay(d) == DayOfYear(d) + 10
  {
    var m := d.month;
    if m == 1 {} else if m == 2 {} else if m == 3 {} else if m == 4 {} else if m == 5 {} else if m == 6 {}
    else if m == 7 {} else if m == 8 {} else if m == 9 {} else if m == 10 {} else if m == 11 {} else {}
  }

  lemma DivisibleByFour(y: int)
    ensures y == y / 4 * 4 <==> y % 4 == 0
  {
  }

  // -------------------------------------------------------------- the two C routines

  /** ut_instant: julianDay stands for j_date + 0.5. */
  class UtInstant {
    var julianDay: int
    var year: int
    var month: int
    var day: int
    var weekday: int
    var dayOfYear: int

    /** The date part of the structure. */
    function Civil(): Date
      reads this
    {
      Date(year, month, day)
    }

    /** caldat: overwrite the date from julianDay; also returns the year. */
    method Caldat() returns (result: int)
      modifies this`year, this`month, this`day, this`weekday, this`dayOfYear
      ensures Civil() == CivilDate(julianDay) && result == year
      ensures weekday == Weekday(julianDay) && dayOfYear == OrdinalDay(Civil())
      ensures Convertible(julianDay) ==> weekday == SignedDayOfWeek(Civil())
    {
      SetFromDay();
      result := year;
      CaldatWeekday(julianDay);
    }

    /** All of it but the result. */
    method SetFromDay()
      modifies this`year, this`month, this`day, this`weekday, this`dayOfYear
      ensures Civil() == CivilDate(julianDay)
      ensures weekday == Weekday(julianDay) && dayOfYear == OrdinalDay(Civil())
    {
      var jd := julianDay;
      var ka := jd;
      if jd >= 2299161 {
        var ialp := Trunc(100 * jd - 186721625, 3652425);
        ka := jd + 1 + ialp - ialp / 4;
      }
      var kb := ka + 1524;
      assert kb == Realigned(jd) + 1524;
      var kc := Trunc(20 * kb - 2442, 7305);
      var kd := Trunc(1461 * kc, 4);
      var ke := Trunc(10000 * (kb - kd), 306001);
      assert DateOfParts(kb, kc, kd, ke) == DateOfRealigned(kb);
      SetDate(kb, kc, kd, ke);
      weekday := Rem(jd + 1, 7);
      SetDayOfYear();
    }

    /** The last step of caldat. */
    method SetDayOfYear()
      modifies this`dayOfYear
      ensures dayOfYear == OrdinalDay(Civil())
    {
      DivisibleByFour(year);
      if year == year / 4 * 4 {
        dayOfYear := Trunc(275 * month, 9) - Trunc(month + 9, 12) + day - 30;
      } else {
        dayOfYear := Trunc(275 * month, 9) - Trunc(month + 9, 12) * 2 + day - 30;
      }
    }

    /** The part of caldat that fills in day, month and year. */
    method SetDate(kb: int, kc: int, kd: int, ke: int)
      modifies this`year, this`month, this`day
      ensures Civil() == DateOfParts(kb, kc, kd, ke)
    {
      day := kb - kd - Trunc(306001 * ke, 10000);
      if ke > 13 {
        month := ke - 13;
      } else {
        month := ke - 1;
      }
      if month == 2 && day > 28 {
        day := 29;
      }
      if month == 2 && day == 29 && ke == 3 {
        year := kc - 4716;
      } else if month > 2 {
        year := kc - 4716;
      } else {
        year := kc - 4715;
      }
    }

    /** juldat: overwrite julianDay and weekday from the date. */
    method Juldat() returns (result: int)
      modifies this`julianDay, this`weekday
      ensures result == julianDay == JulianDay(Civil()) && weekday == Weekday(julianDay)
      ensures RealDate(Civil()) && !YearZeroWinter(Civil()) ==> weekday == SignedDayOfWeek(Civil())
    {
      SetFromDate();
      result := julianDay;
      JuldatWeekday(Civil());
    }

    /** All of it but the result. */
    method SetFromDate()
      modifies this`julianDay, this`weekday
      ensures julianDay == JulianDay(Civil()) && weekday == Weekday(julianDay)
    {
      var iy0, im0 := year, month;
      if month <= 2 {
        iy0 := year - 1;
        im0 := month + 12;
      }
      var ia := Trunc(iy0, 100);
      var ib := 2 - ia + ia / 4;
      var jd;
      if year < 0 {
        jd := Trunc(1461 * iy0 - 3, 4) + Trunc(306001 * (im0 + 1), 10000) + day + 1720994;
      } else {
        jd := Trunc(1461 * iy0, 4) + Trunc(306001 * (im0 + 1), 10000) + day + 1720994;
      }
      if ReformGuard(Civil()) {
        jd := jd + ib;
      }
      assert jd + 1 == JulianDay(Civil());
      julianDay := jd + 1;
      weekday := Rem(julianDay + 1, 7);
    }
  }

  /**
    Converting a structure to a day number and back gives its date again exactly in the cases
    above, and leaves the weekday of the day number either way.
   */
  method ThereAndBack(u: UtInstant)
    requires RealDate(u.Civil())
    modifies u
    ensures u.julianDay == old(JulianDay(u.Civil())) && u.weekday == Weekday(u.julianDay)
    ensures u.Civil() == old(u.Civil()) <==>
            Convertible(DayNumber(old(u.Civil()))) && !YearZeroWinter(old(u.Civil()))
  {
    DateRoundTrip(u.Civil());
    var jd := u.Juldat();
    var year := u.Caldat();
  }
}
