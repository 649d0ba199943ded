/**
 * UTC calendar arithmetic behind `ms_to_utc_iso`, `parse_dt_utc` and `get_range`.
 *
 * Day numbers count days from 1970-01-01 (day 0). The conversion between day numbers and
 * proleptic Gregorian dates is the era-based days/civil algorithm: a 400-year era of
 * 146097 days that starts on the 1st of March, so that the leap day is the last day of
 * each year of the era.
 */
module CivilTime {
  import opened Wrappers

  const MsPerSecond := 1000
  const SecondsPerDay := 86400
  const MsPerDay := 86_400_000
  const UsPerSecond := 1_000_000
  const UsPerMs := 1000
  const UsPerDay := 86_400_000_000
  /** `datetime.timedelta` refuses more days than this. */
  const MaxTimedeltaDays := 999_999_999

  datatype Date = Date(year: int, month: int, day: int)

  /** A naive UTC date and time of day, to the second (what `strptime` yields here). */
  datatype DateTime = DateTime(year: int, month: int, day: int, hour: int, minute: int, second: int)

  datatype TimeError =
    | BadDate(text: string)   // `strptime` rejected the text (ValueError)
    | OutOfRange              // the result left years 1..9999 (OverflowError)

  // ----- the Gregorian calendar -----

  predicate IsLeap(y: int)
  {
    y % 4 == 0 && (y % 100 != 0 || y % 400 == 0)
  }

  function DaysInMonth(y: int, m: int): int
  {
    if m == 2 then (if IsLeap(y) then 29 else 28)
    else if m == 4 || m == 6 || m == 9 || m == 11 then 30
    else 31
  }

  /** The years `datetime` represents: 1 to 9999. */
  predicate InYearRange(y: int)
  {
    1 <= y <= 9999
  }

  predicate ValidDate(d: Date)
  {
    InYearRange(d.year) && 1 <= d.month <= 12 && 1 <= d.day <= DaysInMonth(d.year, d.month)
  }

  predicate ValidDateTime(t: DateTime)
  {
    ValidDate(DateOf(t)) && 0 <= t.hour < 24 && 0 <= t.minute < 60 && 0 <= t.second < 60
  }

  function DateOf(t: DateTime): Date
  {
    Date(t.year, t.month, t.day)
  }

  // ----- the era-based algorithm -----

  /** Day of the era (counted from 1 March of year 0 of the era) on which year `n` of the era starts. */
  function YearStart(n: int): int
  {
    365 * n + n / 4 - n / 100
  }

  /** The day after the last day of year `n` of the era. */
  function YearEnd(n: int): int
  {
    if n == 399 then 146097 else YearStart(n + 1)
  }

  /** The year of the era that contains day `doe` of the era. */
  function YearOfEra(doe: int): int
  {
    (doe - doe / 1460 + doe / 36524 - doe / 146096) / 365
  }

  /** Day of the year (from 1 March) on which month `mp` (0 = March, ..., 11 = February) starts. */
  function MonthStart(mp: int): int
  {
    (153 * mp + 2) / 5
  }

  /** The month (0 = March) that contains day `doy` of the year. */
  function MonthOfYear(doy: int): int
  {
    (5 * doy + 2) / 153
  }

  /** The civil date of day `doe` of era `era`. */
  function CivilOfEraDay(era: int, doe: int): Date
  {
    var yoe := YearOfEra(doe);
    var doy := doe - YearStart(yoe);
    var mp := MonthOfYear(doy);
    var m := if mp < 10 then mp + 3 else mp - 9;
    Date(yoe + era * 400 + (if m <= 2 then 1 else 0), m, doy - MonthStart(mp) + 1)
  }

  /** The civil date of day number `z`. */
  function CivilFromDays(z: int): Date
  {
    CivilOfEraDay((z + 719468) / 146097, (z + 719468) % 146097)
  }

  /** The day number of a civil date. */
  function DaysFromCivil(d: Date): int
  {
    var y := if d.month <= 2 then d.year - 1 else d.year;
    var era := y / 400;
    var yoe := y % 400;
    var mp := if d.month > 2 then d.month - 3 else d.month + 9;
    era * 146097 + YearStart(yoe) + MonthStart(mp) + d.day - 1 - 719468
  }

  lemma YearOfEraParts(c: int, q: int, s: int)
    requires 0 <= c <= 3 && 0 <= q <= 24 && 0 <= s <= 1460 && (q == 24 ==> s <= 1459)
    ensures YearOfEra(36524 * c + 1461 * q + s) == 100 * c + 4 * q + (if s < 1460 then s / 365 else 3)
  {
    var doe := 36524 * c + 1461 * q + s;
    var u := 24 * c + q + s;
    assert doe == 1460 * (25 * c + q) + u;
    var t := u / 1460;
    assert doe / 1460 == 25 * c + q + t;
    assert doe / 36524 == c;
    assert doe / 146096 == 0;
    assert doe - doe / 1460 + doe / 36524 - doe / 146096 == 365 * (100 * c + 4 * q) + (s - t);
  }

  lemma YearStartParts(c: int, q: int, k: int)
    requires 0 <= c <= 3 && 0 <= q <= 24 && 0 <= k <= 3
    ensures YearStart(100 * c + 4 * q + k) == 36524 * c + 1461 * q + 365 * k
  {
    var y := 100 * c + 4 * q + k;
    assert y / 4 == 25 * c + q;
    assert y / 100 == c;
  }

  /** Every day of the era falls in exactly the year the formula names. */
  lemma {:induction false} YearOfEraBounds(doe: int)
    requires 0 <= doe < 146097
    ensures 0 <= YearOfEra(doe) <= 399
    ensures YearStart(YearOfEra(doe)) <= doe < YearEnd(YearOfEra(doe))
  {
    if doe == 146096 {
      assert YearOfEra(doe) == 399;
    } else {
      var c := doe / 36524;
      var r := doe % 36524;
      var q := r / 1461;
      var s := r % 1461;
      assert doe == 36524 * c + 1461 * q + s;
      YearOfEraParts(c, q, s);
      var k := if s < 1460 then s / 365 else 3;
      YearStartParts(c, q, k);
      if k < 3 {
        YearStartParts(c, q, k + 1);
      } else if q < 24 {
        YearStartParts(c, q + 1, 0);
      } else if c < 3 {
        YearStartParts(c + 1, 0, 0);
      }
    }
  }

  /** Every day of a year falls in exactly the month the formula names. */
  lemma MonthOfYearBounds(doy: int)
    requires 0 <= doy <= 366
    ensures 0 <= MonthOfYear(doy) <= 11
    ensures MonthStart(MonthOfYear(doy)) <= doy < MonthStart(MonthOfYear(doy) + 1)
  {
  }

  /** Conversely, a day inside month `mp` is named by the formula as month `mp`. */
  lemma MonthOfYearExact(mp: int, off: int)
    requires 0 <= mp <= 11 && 0 <= off && MonthStart(mp) + off < MonthStart(mp + 1)
    ensures MonthOfYear(MonthStart(mp) + off) == mp
  {
    MonthOfYearBounds(MonthStart(mp) + off);
  }

  /** Leap years repeat every 400 years. */
  lemma LeapPeriodic(era: int, y: int)
    ensures IsLeap(era * 400 + y) == IsLeap(y)
  {
    ShiftMod4(era * 100, y);
    ShiftMod100(era * 4, y);
    ShiftMod400(era, y);
  }

  lemma ShiftMod4(a: int, y: int)
    ensures (4 * a + y) % 4 == y % 4
  {
    assert 4 * a + y == 4 * (a + y / 4) + y % 4;
  }

  lemma ShiftMod100(a: int, y: int)
    ensures (100 * a + y) % 100 == y % 100
  {
    assert 100 * a + y == 100 * (a + y / 100) + y % 100;
  }

  lemma ShiftMod400(a: int, y: int)
    ensures (400 * a + y) % 400 == y % 400
  {
    assert 400 * a + y == 400 * (a + y / 400) + y % 400;
  }

  /** Year `n` of an era is a leap-length year exactly when the calendar year it ends in is a leap year. */
  lemma YearLength(era: int, n: int)
    requires 0 <= n <= 399
    ensures YearEnd(n) - YearStart(n) == if IsLeap(era * 400 + n + 1) then 366 else 365
  {
    LeapPeriodic(era, n + 1);
    YearParts(n);
    YearLengthParts(n / 100, n % 100 / 4, n % 4);
    LeapParts(n / 100, n % 100 / 4, n % 4);
  }

  /** The length of year `100 * c + 4 * q + k` of an era. */
  lemma YearLengthParts(c: int, q: int, k: int)
    requires 0 <= c <= 3 && 0 <= q <= 24 && 0 <= k <= 3
    ensures YearEnd(100 * c + 4 * q + k) - YearStart(100 * c + 4 * q + k)
            == if k == 3 && (q < 24 || c == 3) then 366 else 365
  {
    YearStartParts(c, q, k);
    if k < 3 {
      YearStartParts(c, q, k + 1);
    } else if q < 24 {
      YearStartParts(c, q + 1, 0);
    } else if c < 3 {
      YearStartParts(c + 1, 0, 0);
    }
  }

  /** Which years `100 * c + 4 * q + k + 1` of the first era are leap years. */
  lemma LeapParts(c: int, q: int, k: int)
    requires 0 <= c <= 3 && 0 <= q <= 24 && 0 <= k <= 3
    ensures IsLeap(100 * c + 4 * q + k + 1) <==> k == 3 && (q < 24 || c == 3)
  {
    var y := 100 * c + 4 * q + k + 1;
    ShiftMod4(25 * c + q, k + 1);
    if k == 3 {
      ShiftMod100(c, 4 * q + 4);
      if q == 24 {
        assert y == 100 * (c + 1);
        ShiftMod400(0, y);
      }
    }
  }

  lemma DaysFromCivilOfEraDay(era: int, doe: int)
    requires 0 <= doe < 146097
    ensures DaysFromCivil(CivilOfEraDay(era, doe)) == era * 146097 + doe - 719468
  {
    YearOfEraBounds(doe);
    var yoe := YearOfEra(doe);
    YearLength(era, yoe);
    var doy := doe - YearStart(yoe);
    MonthOfYearBounds(doy);
    var mp := MonthOfYear(doy);
    var m := if mp < 10 then mp + 3 else mp - 9;
    var y := era * 400 + yoe;
    var d := CivilOfEraDay(era, doe);
    assert d == Date(y + (if m <= 2 then 1 else 0), m, doy - MonthStart(mp) + 1);
    DaysFromCivilParts(d, era, yoe, mp);
  }

  /** The day number of a date whose (March-based) year is year `yoe` of era `era` and whose month is `mp`. */
  lemma DaysFromCivilParts(d: Date, era: int, yoe: int, mp: int)
    requires 0 <= yoe < 400
    requires (if d.month <= 2 then d.year - 1 else d.year) == era * 400 + yoe
    requires (if d.month > 2 then d.month - 3 else d.month + 9) == mp
    ensures DaysFromCivil(d) == era * 146097 + YearStart(yoe) + MonthStart(mp) + d.day - 1 - 719468
  {
    var y := era * 400 + yoe;
    assert y / 400 == era && y % 400 == yoe;
  }

  /** Turning a day number into a date and back gives the day number again. */
  lemma DaysFromCivilFromDays(z: int)
    ensures DaysFromCivil(CivilFromDays(z)) == z
  {
    DaysFromCivilOfEraDay((z + 719468) / 146097, (z + 719468) % 146097);
  }

  lemma YearParts(n: int)
    requires 0 <= n <= 399
    ensures n == 100 * (n / 100) + 4 * (n % 100 / 4) + n % 4
    ensures 0 <= n / 100 <= 3 && 0 <= n % 100 / 4 <= 24
  {
  }

  /** A day inside year `yoe` of the era is named by the formula as that year. */
  lemma YearOfEraExact(yoe: int, doy: int)
    requires 0 <= yoe <= 399 && 0 <= doy && YearStart(yoe) + doy < YearEnd(yoe)
    ensures YearOfEra(YearStart(yoe) + doy) == yoe
  {
    YearParts(yoe);
    var c, q, k := yoe / 100, yoe % 100 / 4, yoe % 4;
    YearStartParts(c, q, k);
    if k < 3 {
      YearStartParts(c, q, k + 1);
    } else if q < 24 {
      YearStartParts(c, q + 1, 0);
    } else if c < 3 {
      YearStartParts(c + 1, 0, 0);
    }
    var s := 365 * k + doy;
    if q == 24 && s == 1460 {
      assert YearStart(yoe) + doy == 146096;
    } else {
      YearOfEraParts(c, q, s);
    }
  }

  /** The months March to January have the lengths the month-start formula spaces them by. */
  lemma MonthLength(y: int, m: int)
    requires 1 <= m <= 12 && m != 2
    ensures var mp := if m > 2 then m - 3 else m + 9;
            MonthStart(mp + 1) - MonthStart(mp) == DaysInMonth(y, m)
  {
  }

  /** The day of the (March-based) year of a valid date lies inside that year. */
  lemma DayOfYearInYear(d: Date)
    requires ValidDate(d)
    ensures var y := if d.month <= 2 then d.year - 1 else d.year;
            var mp := if d.month > 2 then d.month - 3 else d.month + 9;
            MonthStart(mp) + d.day - 1 < MonthStart(mp + 1) &&
            YearStart(y % 400) + MonthStart(mp) + d.day - 1 < YearEnd(y % 400)
  {
    var y := if d.month <= 2 then d.year - 1 else d.year;
    YearLength(y / 400, y % 400);
    assert y / 400 * 400 + y % 400 == y;
    if d.month != 2 {
      MonthLength(d.year, d.month);
    }
  }

  /** Turning a valid date into a day number and back gives the date again. */
  lemma CivilFromDaysFromCivil(d: Date)
    requires ValidDate(d)
    ensures CivilFromDays(DaysFromCivil(d)) == d
  {
    var y := if d.month <= 2 then d.year - 1 else d.year;
    var mp := if d.month > 2 then d.month - 3 else d.month + 9;
    DayOfYearInYear(d);
    DaysFromCivilParts(d, y / 400, y % 400, mp);
    CivilFromDaysParts(DaysFromCivil(d), y / 400, y % 400, mp, d.day);
    MarchYearBack(d, y, mp);
  }

  /** The date of the day number of day `day` of month `mp` of year `yoe` of era `era`. */
  lemma CivilFromDaysParts(z: int, era: int, yoe: int, mp: int, day: int)
    requires 0 <= yoe <= 399 && 0 <= mp <= 11 && 1 <= day
    requires MonthStart(mp) + day - 1 < MonthStart(mp + 1)
    requires YearStart(yoe) + MonthStart(mp) + day - 1 < YearEnd(yoe)
    requires z == era * 146097 + YearStart(yoe) + MonthStart(mp) + day - 1 - 719468
    ensures CivilFromDays(z) == Date(era * 400 + yoe + (if mp >= 10 then 1 else 0), if mp < 10 then mp + 3 else mp - 9, day)
  {
    var doy := MonthStart(mp) + day - 1;
    YearOfEraExact(yoe, doy);
    MonthOfYearExact(mp, day - 1);
    var doe := YearStart(yoe) + doy;
    YearSpan(yoe);
    assert 0 <= MonthStart(mp);
    CivilFromDaysOfEra(z, era, doe);
    CivilOfEraDayExact(era, doe, yoe, mp, day);
  }

  /** Undoing the shift to years that start on 1 March. */
  lemma MarchYearBack(d: Date, y: int, mp: int)
    requires 1 <= d.month <= 12
    requires y == (if d.month <= 2 then d.year - 1 else d.year)
    requires mp == (if d.month > 2 then d.month - 3 else d.month + 9)
    ensures Date(y / 400 * 400 + y % 400 + (if mp >= 10 then 1 else 0), if mp < 10 then mp + 3 else mp - 9, d.day) == d
  {
  }

  /** The years of an era lie inside the era. */
  lemma YearSpan(n: int)
    requires 0 <= n <= 399
    ensures 0 <= YearStart(n) && YearEnd(n) <= 146097
  {
    if n < 399 {
      YearStartBelow(n + 1);
    }
  }

  /** The date of day `doe` of an era, given its year of the era, its month and its day of the month. */
  lemma CivilOfEraDayExact(era: int, doe: int, yoe: int, mp: int, day: int)
    requires 0 <= mp <= 11 && doe == YearStart(yoe) + MonthStart(mp) + day - 1
    requires YearOfEra(doe) == yoe && MonthOfYear(MonthStart(mp) + day - 1) == mp
    ensures CivilOfEraDay(era, doe)
            == Date(era * 400 + yoe + (if mp >= 10 then 1 else 0), if mp < 10 then mp + 3 else mp - 9, day)
  {
  }

  /** Day number `z` is day `doe` of era `era`. */
  lemma CivilFromDaysOfEra(z: int, era: int, doe: int)
    requires 0 <= doe < 146097 && z + 719468 == era * 146097 + doe
    ensures CivilFromDays(z) == CivilOfEraDay(era, doe)
  {
    assert (z + 719468) / 146097 == era && (z + 719468) % 146097 == doe;
  }

  /** The calendar day after `d`. */
  function NextDate(d: Date): Date
  {
    if d.day < DaysInMonth(d.year, d.month) then Date(d.year, d.month, d.day + 1)
    else if d.month < 12 then Date(d.year, d.month + 1, 1)
    else Date(d.year + 1, 1, 1)
  }

  /** The era part of the day number of March 1 of (March-based) year `y`. */
  lemma MarchYearNext(y: int)
    ensures ((y + 1) / 400) * 146097 + YearStart((y + 1) % 400) - ((y / 400) * 146097 + YearStart(y % 400))
            == if IsLeap(y + 1) then 366 else 365
  {
    var era, n := y / 400, y % 400;
    assert y == era * 400 + n;
    YearLength(era, n);
    if n < 399 {
      assert (y + 1) / 400 == era && (y + 1) % 400 == n + 1;
    } else {
      assert (y + 1) / 400 == era + 1 && (y + 1) % 400 == 0;
    }
  }

  /** Day numbers follow the calendar: the next date has the next day number. */
  lemma DaysFromCivilNext(d: Date)
    requires ValidDate(d)
    ensures InYearRange(NextDate(d).year) ==> ValidDate(NextDate(d))
    ensures DaysFromCivil(NextDate(d)) == DaysFromCivil(d) + 1
  {
    if d.day < DaysInMonth(d.year, d.month) {
      NextInMonth(d);
    } else if d.month == 2 {
      NextAfterFebruary(d);
    } else {
      NextMonth(d);
    }
  }

  lemma NextInMonth(d: Date)
    requires ValidDate(d) && d.day < DaysInMonth(d.year, d.month)
    ensures DaysFromCivil(NextDate(d)) == DaysFromCivil(d) + 1
  {
    var y := if d.month <= 2 then d.year - 1 else d.year;
    var mp := if d.month > 2 then d.month - 3 else d.month + 9;
    DaysFromCivilParts(d, y / 400, y % 400, mp);
    DaysFromCivilParts(NextDate(d), y / 400, y % 400, mp);
  }

  /** From the last day of a month other than February; December 31 stays in its March-based year. */
  lemma NextMonth(d: Date)
    requires ValidDate(d) && d.day == DaysInMonth(d.year, d.month) && d.month != 2
    ensures DaysFromCivil(NextDate(d)) == DaysFromCivil(d) + 1
  {
    var y := if d.month <= 2 then d.year - 1 else d.year;
    var mp := if d.month > 2 then d.month - 3 else d.month + 9;
    MonthLength(d.year, d.month);
    DaysFromCivilParts(d, y / 400, y % 400, mp);
    DaysFromCivilParts(NextDate(d), y / 400, y % 400, mp + 1);
  }

  /** From the last day of February to March 1, which starts the next March-based year. */
  lemma NextAfterFebruary(d: Date)
    requires ValidDate(d) && d.month == 2 && d.day == DaysInMonth(d.year, 2)
    ensures DaysFromCivil(NextDate(d)) == DaysFromCivil(d) + 1
  {
    var y := d.year - 1;
    MarchYearNext(y);
    DaysFromCivilParts(d, y / 400, y % 400, 11);
    DaysFromCivilParts(NextDate(d), (y + 1) / 400, (y + 1) % 400, 0);
  }

  /** Counting one day forward from a date walks the calendar to the next date. */
  lemma CivilFromDaysNext(d: Date)
    requires ValidDate(d) && InYearRange(NextDate(d).year)
    ensures CivilFromDays(DaysFromCivil(d) + 1) == NextDate(d)
  {
    DaysFromCivilNext(d);
    CivilFromDaysFromCivil(NextDate(d));
  }

  /** Days and dates correspond one to one. */
  lemma DaysFromCivilInjective(d1: Date, d2: Date)
    requires ValidDate(d1) && ValidDate(d2)
    ensures DaysFromCivil(d1) == DaysFromCivil(d2) <==> d1 == d2
  {
    CivilFromDaysFromCivil(d1);
    CivilFromDaysFromCivil(d2);
  }

  /** Month and day of any day number are in range. */
  lemma CivilFromDaysInRange(z: int)
    ensures 1 <= CivilFromDays(z).month <= 12
    ensures 1 <= CivilFromDays(z).day <= DaysInMonth(CivilFromDays(z).year, CivilFromDays(z).month)
  {
    CivilOfEraDayInRange((z + 719468) / 146097, (z + 719468) % 146097);
  }

  lemma CivilOfEraDayInRange(era: int, doe: int)
    requires 0 <= doe < 146097
    ensures var d := CivilOfEraDay(era, doe);
            1 <= d.month <= 12 && 1 <= d.day <= DaysInMonth(d.year, d.month)
  {
    YearOfEraBounds(doe);
    var yoe := YearOfEra(doe);
    YearLength(era, yoe);
    var doy := doe - YearStart(yoe);
    MonthOfYearBounds(doy);
    var mp := MonthOfYear(doy);
    var d := CivilOfEraDay(era, doe);
    if mp < 11 {
      MonthLength(d.year, d.month);
    } else {
      assert d.year == era * 400 + yoe + 1;
    }
  }

  /** Day numbers of 0001-01-01 and 9999-12-31, the first and last days `datetime` represents. */
  const MinDay := -719162
  const MaxDay := 2932896

  /** The year of day number `z` lies in 1..9999 exactly when `z` lies between those two days. */
  lemma YearInRangeDays(z: int)
    ensures InYearRange(CivilFromDays(z).year) <==> MinDay <= z <= MaxDay
  {
    var era, doe := (z + 719468) / 146097, (z + 719468) % 146097;
    assert z == era * 146097 + doe - 719468;
    EraDayInYearRange(era, doe);
  }

  lemma EraDayInYearRange(era: int, doe: int)
    requires 0 <= doe < 146097
    ensures InYearRange(CivilOfEraDay(era, doe).year) <==> 306 <= era * 146097 + doe <= 3652364
  {
    YearOfEraBounds(doe);
    var yoe := YearOfEra(doe);
    YearLength(era, yoe);
    var doy := doe - YearStart(yoe);
    MonthOfYearBounds(doy);
    assert CivilOfEraDay(era, doe).year == era * 400 + yoe + (if doy >= 306 then 1 else 0);
    YearFloor(era, doe);
    YearCeiling(era, doe);
  }

  /** Years from 1 start on day 306 of era 0 (1 January of year 1). */
  lemma YearFloor(era: int, doe: int)
    requires 0 <= doe < 146097
    requires 0 <= YearOfEra(doe) <= 399
    requires YearStart(YearOfEra(doe)) <= doe
    ensures var yoe := YearOfEra(doe);
            var year := era * 400 + yoe + (if doe - YearStart(yoe) >= 306 then 1 else 0);
            year >= 1 <==> era * 146097 + doe >= 306
  {
    if era == 0 && YearOfEra(doe) >= 1 {
      assert YearStart(YearOfEra(doe)) >= 365;
    }
  }

  /** Years up to 9999 end on day 146036 of era 24 (31 December 9999). */
  lemma YearCeiling(era: int, doe: int)
    requires 0 <= doe < 146097
    requires 0 <= YearOfEra(doe) <= 399
    requires YearStart(YearOfEra(doe)) <= doe < YearEnd(YearOfEra(doe))
    ensures var yoe := YearOfEra(doe);
            var year := era * 400 + yoe + (if doe - YearStart(yoe) >= 306 then 1 else 0);
            year <= 9999 <==> era * 146097 + doe <= 3652364
  {
    var yoe := YearOfEra(doe);
    if era == 24 {
      if yoe == 399 {
        assert YearStart(yoe) == 145731;
      } else {
        YearStartBelow(yoe + 1);
      }
    }
  }

  /** Years of an era start no later than its last year does. */
  lemma YearStartBelow(n: int)
    requires 0 <= n <= 399
    ensures YearStart(n) <= 145731
  {
  }

  // ----- seconds since the epoch -----

  /** Seconds since 1970-01-01 00:00:00 UTC (`timestamp()` of the aware datetime). */
  function EpochSeconds(t: DateTime): int
  {
    DaysFromCivil(DateOf(t)) * SecondsPerDay + t.hour * 3600 + t.minute * 60 + t.second
  }

  /** The UTC date and time of the second that contains `secs` (floor semantics, as `datetime` has). */
  function FromEpochSeconds(secs: int): DateTime
  {
    var d := CivilFromDays(secs / SecondsPerDay);
    var sod := secs % SecondsPerDay;
    DateTime(d.year, d.month, d.day, sod / 3600, sod / 60 % 60, sod % 60)
  }

  lemma SecondOfDay(sod: int)
    requires 0 <= sod < SecondsPerDay
    ensures sod / 3600 * 3600 + sod / 60 % 60 * 60 + sod % 60 == sod
    ensures 0 <= sod / 3600 < 24 && 0 <= sod / 60 % 60 < 60
  {
  }

  lemma ClockFields(h: int, mi: int, sec: int)
    requires 0 <= h < 24 && 0 <= mi < 60 && 0 <= sec < 60
    ensures var sod := h * 3600 + mi * 60 + sec;
            0 <= sod < SecondsPerDay && sod / 3600 == h && sod / 60 % 60 == mi && sod % 60 == sec
  {
    var sod := h * 3600 + mi * 60 + sec;
    assert sod == (h * 60 + mi) * 60 + sec;
    assert sod / 60 == h * 60 + mi;
    assert (h * 60 + mi) % 60 == mi;
  }

  lemma SplitDay(secs: int, days: int, sod: int)
    requires 0 <= sod < SecondsPerDay && secs == days * SecondsPerDay + sod
    ensures secs / SecondsPerDay == days && secs % SecondsPerDay == sod
  {
  }

  /** Reading an instant as a date and time and back gives the instant again. */
  lemma EpochSecondsFromEpochSeconds(secs: int)
    ensures EpochSeconds(FromEpochSeconds(secs)) == secs
  {
    var days, sod := secs / SecondsPerDay, secs % SecondsPerDay;
    DaysFromCivilFromDays(days);
    SecondOfDay(sod);
    var t := FromEpochSeconds(secs);
    assert DaysFromCivil(DateOf(t)) == days;
    assert t.hour * 3600 + t.minute * 60 + t.second == sod;
  }

  /** A valid date and time read as an instant and back is itself. */
  lemma FromEpochSecondsEpochSeconds(t: DateTime)
    requires ValidDateTime(t)
    ensures FromEpochSeconds(EpochSeconds(t)) == t
  {
    var days := DaysFromCivil(DateOf(t));
    var sod := t.hour * 3600 + t.minute * 60 + t.second;
    var secs := EpochSeconds(t);
    SplitDay(secs, days, sod);
    CivilFromDaysFromCivil(DateOf(t));
    assert CivilFromDays(secs / SecondsPerDay) == DateOf(t);
    ClockFields(t.hour, t.minute, t.second);
    assert secs % SecondsPerDay == sod;
  }

  // ----- rendering -----

  function Digit(n: int): char
    requires 0 <= n <= 9
  {
    (48 + n) as char
  }

  predicate IsDigit(c: char)
  {
    '0' <= c <= '9'
  }

  function DigitValue(c: char): int
  {
    c as int - 48
  }

  function Pad2(n: int): string
    requires 0 <= n < 100
  {
    [Digit(n / 10), Digit(n % 10)]
  }

  function Pad4(n: int): string
    requires 0 <= n < 10000
  {
    [Digit(n / 1000), Digit(n / 100 % 10), Digit(n / 10 % 10), Digit(n % 10)]
  }

  /** `YYYY-MM-DD`. */
  function RenderDate(d: Date): string
    requires ValidDate(d)
  {
    Pad4(d.year) + "-" + Pad2(d.month) + "-" + Pad2(d.day)
  }

  /** `YYYY-MM-DD<sep>HH:MM:SS`; `strftime("%Y-%m-%d %H:%M:%S")` when `sep` is a space. */
  function Render(t: DateTime, sep: char): string
    requires ValidDateTime(t)
  {
    RenderDate(DateOf(t)) + [sep] + Pad2(t.hour) + ":" + Pad2(t.minute) + ":" + Pad2(t.second)
  }

  /**
   * `ms_to_utc_iso`: the UTC calendar date and time of the second containing `ms / 1000`
   * seconds, as `YYYY-MM-DD HH:MM:SS`. `None` where `datetime` cannot represent the year.
   */
  function MsToUtcIso(ms: int): (r: Option<string>)
    ensures r.Some? <==> Renderable(ms)
    ensures r.Some? ==> |r.value| == 19 && r.value[10] == ' '
  {
    var t := FromEpochSeconds(ms / MsPerSecond);
    CivilFromDaysInRange(ms / MsPerSecond / SecondsPerDay);
    assert ms / MsPerSecond / SecondsPerDay == ms / MsPerDay;
    YearInRangeDays(ms / MsPerDay);
    if InYearRange(t.year) then Some(Render(t, ' ')) else None
  }

  /** The instants `ms_to_utc_iso` can render: those from 0001-01-01 up to the end of 9999-12-31. */
  predicate Renderable(ms: int)
  {
    MinDay * MsPerDay <= ms < (MaxDay + 1) * MsPerDay
  }

  // ----- parsing -----

  /** A fixed-width pattern: `D` stands for one decimal digit, any other character for itself. */
  predicate Matches(s: string, pattern: string)
  {
    |s| == |pattern| &&
    forall i :: 0 <= i < |s| ==> if pattern[i] == 'D' then IsDigit(s[i]) else s[i] == pattern[i]
  }

  const DatePattern := "DDDD-DD-DD"
  const DateTimePattern := "DDDD-DD-DDTDD:DD:DD"

  function Num2(s: string, i: int): int
    requires 0 <= i && i + 2 <= |s|
  {
    10 * DigitValue(s[i]) + DigitValue(s[i + 1])
  }

  function Num4(s: string, i: int): int
    requires 0 <= i && i + 4 <= |s|
  {
    100 * Num2(s, i) + Num2(s, i + 2)
  }

  function Checked(t: DateTime, s: string): Result<DateTime, TimeError>
  {
    if ValidDateTime(t) then Ok(t) else Err(BadDate(s))
  }

  /**
   * `parse_dt_utc`: text containing `T` must be `YYYY-MM-DDTHH:MM:SS`, any other text
   * `YYYY-MM-DD` (midnight); the fields must name an existing date and time.
   */
  function ParseDtUtc(s: string): (r: Result<DateTime, TimeError>)
    ensures r.Ok? ==> ValidDateTime(r.value)
    ensures r.Err? ==> r.error == BadDate(s)
  {
    if 'T' in s then
      if Matches(s, DateTimePattern) then
        Checked(DateTime(Num4(s, 0), Num2(s, 5), Num2(s, 8), Num2(s, 11), Num2(s, 14), Num2(s, 17)), s)
      else Err(BadDate(s))
    else
      if Matches(s, DatePattern) then
        Checked(DateTime(Num4(s, 0), Num2(s, 5), Num2(s, 8), 0, 0, 0), s)
      else Err(BadDate(s))
  }

  lemma Pad2Reads(n: int, s: string, i: int)
    requires 0 <= n < 100 && 0 <= i && i + 2 <= |s| && s[i..i + 2] == Pad2(n)
    ensures Num2(s, i) == n && IsDigit(s[i]) && IsDigit(s[i + 1])
  {
    assert s[i] == Pad2(n)[0] && s[i + 1] == Pad2(n)[1];
  }

  lemma Pad4Reads(n: int, s: string, i: int)
    requires 0 <= n < 10000 && 0 <= i && i + 4 <= |s| && s[i..i + 4] == Pad4(n)
    ensures Num4(s, i) == n && forall j :: i <= j < i + 4 ==> IsDigit(s[j])
  {
    assert s[i] == Pad4(n)[0] && s[i + 1] == Pad4(n)[1];
    assert s[i + 2] == Pad4(n)[2] && s[i + 3] == Pad4(n)[3];
    Pad4Digits(n);
  }

  /** The four digits of `Pad4(n)` make up `n`. */
  lemma Pad4Digits(n: int)
    requires 0 <= n < 10000
    ensures 100 * (10 * (n / 1000) + n / 100 % 10) + (10 * (n / 10 % 10) + n % 10) == n
  {
    var h, l := n / 100, n % 100;
    assert n / 1000 == h / 10 && n / 100 % 10 == h % 10;
    assert n / 10 == 10 * h + l / 10;
    assert n / 10 % 10 == l / 10 && n % 10 == l % 10;
  }

  /** Parsing the `T` rendering of a valid date and time gives it back. */
  lemma ParseRenderT(t: DateTime)
    requires ValidDateTime(t)
    ensures ParseDtUtc(Render(t, 'T')) == Ok(t)
  {
    var s := Render(t, 'T');
    RenderTShape(t);
    RenderFields(Pad4(t.year), Pad2(t.month), Pad2(t.day), 'T', Pad2(t.hour), Pad2(t.minute), Pad2(t.second), s);
    Pad4Reads(t.year, s, 0);
    Pad2Reads(t.month, s, 5);
    Pad2Reads(t.day, s, 8);
    Pad2Reads(t.hour, s, 11);
    Pad2Reads(t.minute, s, 14);
    Pad2Reads(t.second, s, 17);
  }

  /** Matching is compositional: pieces that match their patterns match the joined pattern. */
  lemma MatchesAppend(a: string, p: string, b: string, q: string)
    requires Matches(a, p) && Matches(b, q)
    ensures Matches(a + b, p + q)
  {
    forall i | 0 <= i < |a + b|
      ensures if (p + q)[i] == 'D' then IsDigit((a + b)[i]) else (a + b)[i] == (p + q)[i]
    {
      if i >= |a| {
        assert (a + b)[i] == b[i - |a|] && (p + q)[i] == q[i - |a|];
      }
    }
  }

  lemma Pad2Matches(n: int)
    requires 0 <= n < 100
    ensures Matches(Pad2(n), "DD")
  {
  }

  lemma Pad4Matches(n: int)
    requires 0 <= n < 10000
    ensures Matches(Pad4(n), "DDDD")
  {
  }

  /** Where each field of a rendering sits. */
  lemma RenderFields(y: string, mo: string, d: string, sep: char, h: string, mi: string, se: string, s: string)
    requires |y| == 4 && |mo| == 2 && |d| == 2 && |h| == 2 && |mi| == 2 && |se| == 2
    requires s == y + "-" + mo + "-" + d + [sep] + h + ":" + mi + ":" + se
    ensures s[0..4] == y && s[5..7] == mo && s[8..10] == d
    ensures s[11..13] == h && s[14..16] == mi && s[17..19] == se
  {
  }

  /** The `T` rendering has the shape `parse_dt_utc` expects of text containing `T`. */
  lemma RenderTShape(t: DateTime)
    requires ValidDateTime(t)
    ensures 'T' in Render(t, 'T') && Matches(Render(t, 'T'), DateTimePattern)
  {
    var s := Render(t, 'T');
    assert s[10] == 'T';
    Pad4Matches(t.year);
    Pad2Matches(t.month);
    Pad2Matches(t.day);
    Pad2Matches(t.hour);
    Pad2Matches(t.minute);
    Pad2Matches(t.second);
    var y, mo, d, h, mi := Pad4(t.year), Pad2(t.month), Pad2(t.day), Pad2(t.hour), Pad2(t.minute);
    MatchesAppend(y, "DDDD", "-", "-");
    MatchesAppend(y + "-", "DDDD-", mo, "DD");
    MatchesAppend(y + "-" + mo, "DDDD-DD", "-", "-");
    MatchesAppend(y + "-" + mo + "-", "DDDD-DD-", d, "DD");
    MatchesAppend(y + "-" + mo + "-" + d, "DDDD-DD-DD", "T", "T");
    MatchesAppend(y + "-" + mo + "-" + d + "T", "DDDD-DD-DDT", h, "DD");
    MatchesAppend(y + "-" + mo + "-" + d + "T" + h, "DDDD-DD-DDTDD", ":", ":");
    MatchesAppend(y + "-" + mo + "-" + d + "T" + h + ":", "DDDD-DD-DDTDD:", mi, "DD");
    MatchesAppend(y + "-" + mo + "-" + d + "T" + h + ":" + mi, "DDDD-DD-DDTDD:DD", ":", ":");
    MatchesAppend(y + "-" + mo + "-" + d + "T" + h + ":" + mi + ":", "DDDD-DD-DDTDD:DD:", Pad2(t.second), "DD");
  }

  /** Parsing the rendering of a valid date gives its midnight back. */
  lemma ParseRenderDate(d: Date)
    requires ValidDate(d)
    ensures ParseDtUtc(RenderDate(d)) == Ok(DateTime(d.year, d.month, d.day, 0, 0, 0))
  {
    var s := RenderDate(d);
    Pad4Reads(d.year, s, 0);
    Pad2Reads(d.month, s, 5);
    Pad2Reads(d.day, s, 8);
    assert forall i :: 0 <= i < |s| ==> IsDigit(s[i]) || s[i] == '-';
    assert 'T' !in s;
    assert Matches(s, DatePattern);
  }

  /** Two digits read as a number and padded again are the same two characters. */
  lemma Num2Pads(s: string, i: int)
    requires 0 <= i && i + 2 <= |s| && IsDigit(s[i]) && IsDigit(s[i + 1])
    ensures 0 <= Num2(s, i) < 100 && Pad2(Num2(s, i)) == s[i..i + 2]
  {
    var a, b := DigitValue(s[i]), DigitValue(s[i + 1]);
    assert Num2(s, i) / 10 == a && Num2(s, i) % 10 == b;
    assert Digit(a) == s[i] && Digit(b) == s[i + 1];
  }

  /** Four digits likewise. */
  lemma Num4Pads(s: string, i: int)
    requires 0 <= i && i + 4 <= |s| && forall j :: i <= j < i + 4 ==> IsDigit(s[j])
    ensures 0 <= Num4(s, i) < 10000 && Pad4(Num4(s, i)) == s[i..i + 4]
  {
    var hi, lo := Num2(s, i), Num2(s, i + 2);
    Num2Pads(s, i);
    Num2Pads(s, i + 2);
    Num4Split(hi, lo);
    assert Pad2(hi) == s[i..i + 2] && Pad2(lo) == s[i + 2..i + 4];
    assert s[i] == Pad2(hi)[0] && s[i + 1] == Pad2(hi)[1];
    assert s[i + 2] == Pad2(lo)[0] && s[i + 3] == Pad2(lo)[1];
  }

  lemma Num4Split(hi: int, lo: int)
    requires 0 <= hi < 100 && 0 <= lo < 100
    ensures var n := 100 * hi + lo;
            n / 1000 == hi / 10 && n / 100 % 10 == hi % 10 && n / 10 % 10 == lo / 10 && n % 10 == lo % 10
  {
    var n := 100 * hi + lo;
    assert n / 100 == hi;
    assert n / 10 == 10 * hi + lo / 10;
    assert n / 1000 == hi / 10;
  }

  /** The digit positions of `YYYY-MM-DDTHH:MM:SS`. */
  lemma DateTimeDigits(s: string)
    requires Matches(s, DateTimePattern)
    ensures forall j :: 0 <= j < 4 ==> IsDigit(s[j])
    ensures IsDigit(s[5]) && IsDigit(s[6]) && IsDigit(s[8]) && IsDigit(s[9])
    ensures IsDigit(s[11]) && IsDigit(s[12]) && IsDigit(s[14]) && IsDigit(s[15]) && IsDigit(s[17]) && IsDigit(s[18])
  {
    assert forall j :: 0 <= j < 4 ==> DateTimePattern[j] == 'D';
    assert DateTimePattern[5] == 'D' && DateTimePattern[6] == 'D' && DateTimePattern[8] == 'D' && DateTimePattern[9] == 'D';
    assert DateTimePattern[11] == 'D' && DateTimePattern[12] == 'D' && DateTimePattern[14] == 'D';
    assert DateTimePattern[15] == 'D' && DateTimePattern[17] == 'D' && DateTimePattern[18] == 'D';
  }

  /** The digit positions of `YYYY-MM-DD`. */
  lemma DateDigits(s: string)
    requires Matches(s, DatePattern)
    ensures forall j :: 0 <= j < 4 ==> IsDigit(s[j])
    ensures IsDigit(s[5]) && IsDigit(s[6]) && IsDigit(s[8]) && IsDigit(s[9])
  {
    assert forall j :: 0 <= j < 4 ==> DatePattern[j] == 'D';
    assert DatePattern[5] == 'D' && DatePattern[6] == 'D' && DatePattern[8] == 'D' && DatePattern[9] == 'D';
  }

  /** Text of the shape `YYYY-MM-DD` is its fields joined by dashes. */
  lemma DateJoin(s: string)
    requires Matches(s, DatePattern)
    ensures s == s[0..4] + "-" + s[5..7] + "-" + s[8..10]
  {
    assert s[4] == DatePattern[4] && s[7] == DatePattern[7];
  }

  /** Text of the shape `YYYY-MM-DDTHH:MM:SS` is its date, `T` and its fields joined by colons. */
  lemma DateTimeJoin(s: string)
    requires Matches(s, DateTimePattern)
    ensures s == s[0..4] + "-" + s[5..7] + "-" + s[8..10] + "T" + s[11..13] + ":" + s[14..16] + ":" + s[17..19]
  {
    assert s[4] == DateTimePattern[4] && s[7] == DateTimePattern[7] && s[10] == DateTimePattern[10];
    assert s[13] == DateTimePattern[13] && s[16] == DateTimePattern[16];
  }

  /**
   * `parse_dt_utc` accepts only renderings: text that parses is the `T` rendering of its
   * result, or, without a `T`, the date rendering of a result at midnight.
   */
  lemma ParseIsRendering(s: string)
    requires ParseDtUtc(s).Ok?
    ensures var t := ParseDtUtc(s).value;
            if 'T' in s then s == Render(t, 'T')
            else s == RenderDate(DateOf(t)) && t.hour == 0 && t.minute == 0 && t.second == 0
  {
    if 'T' in s {
      DateTimeFields(s);
    } else {
      DateFields(s);
    }
  }

  lemma DateTimeFields(s: string)
    requires Matches(s, DateTimePattern)
    ensures var t := DateTime(Num4(s, 0), Num2(s, 5), Num2(s, 8), Num2(s, 11), Num2(s, 14), Num2(s, 17));
            ValidDateTime(t) ==> s == Render(t, 'T')
  {
    DateTimeDigits(s);
    Num4Pads(s, 0);
    Num2Pads(s, 5);
    Num2Pads(s, 8);
    Num2Pads(s, 11);
    Num2Pads(s, 14);
    Num2Pads(s, 17);
    DateTimeJoin(s);
  }

  lemma DateFields(s: string)
    requires Matches(s, DatePattern)
    ensures var d := Date(Num4(s, 0), Num2(s, 5), Num2(s, 8));
            ValidDate(d) ==> s == RenderDate(d)
  {
    DateDigits(s);
    Num4Pads(s, 0);
    Num2Pads(s, 5);
    Num2Pads(s, 8);
    DateJoin(s);
  }

  /**
   * The rendering names exactly the second containing `ms`: reading it back (with `T` for the
   * space) gives a date and time whose epoch milliseconds start the second that holds `ms`.
   */
  lemma MsToUtcIsoNamesItsSecond(ms: int)
    requires MsToUtcIso(ms).Some?
    ensures var r := MsToUtcIso(ms).value;
            var back := ParseDtUtc(r[..10] + "T" + r[11..]);
            back.Ok? && EpochSeconds(back.value) * MsPerSecond <= ms < EpochSeconds(back.value) * MsPerSecond + MsPerSecond
  {
    var t := FromEpochSeconds(ms / MsPerSecond);
    CivilFromDaysInRange(ms / MsPerSecond / SecondsPerDay);
    assert MsToUtcIso(ms).value == Render(t, ' ');
    RenderSeparator(t);
    ParseRenderT(t);
    EpochSecondsFromEpochSeconds(ms / MsPerSecond);
  }

  /** The two renderings differ only in the separator at position 10. */
  lemma RenderSeparator(t: DateTime)
    requires ValidDateTime(t)
    ensures var r := Render(t, ' '); r[..10] + "T" + r[11..] == Render(t, 'T')
  {
    var date := RenderDate(DateOf(t));
    var clock := Pad2(t.hour) + ":" + Pad2(t.minute) + ":" + Pad2(t.second);
    assert Render(t, ' ') == date + " " + clock && Render(t, 'T') == date + "T" + clock;
    assert (date + " " + clock)[..10] == date && (date + " " + clock)[11..] == clock;
  }

  /**
   * The first ten characters (the date) of two renderings agree exactly when the two
   * instants fall on the same UTC day number, `ms / MsPerDay`.
   */
  lemma DatePrefixIsDayNumber(a: int, b: int)
    requires MsToUtcIso(a).Some? && MsToUtcIso(b).Some?
    ensures MsToUtcIso(a).value[..10] == MsToUtcIso(b).value[..10] <==> a / MsPerDay == b / MsPerDay
  {
    var ta := FromEpochSeconds(a / MsPerSecond);
    var tb := FromEpochSeconds(b / MsPerSecond);
    CivilFromDaysInRange(a / MsPerSecond / SecondsPerDay);
    CivilFromDaysInRange(b / MsPerSecond / SecondsPerDay);
    assert a / MsPerSecond / SecondsPerDay == a / MsPerDay;
    assert b / MsPerSecond / SecondsPerDay == b / MsPerDay;
    assert MsToUtcIso(a).value[..10] == RenderDate(DateOf(ta));
    assert MsToUtcIso(b).value[..10] == RenderDate(DateOf(tb));
    if RenderDate(DateOf(ta)) == RenderDate(DateOf(tb)) {
      ParseRenderDate(DateOf(ta));
      ParseRenderDate(DateOf(tb));
      assert DateOf(ta) == DateOf(tb);
      DaysFromCivilFromDays(a / MsPerDay);
      DaysFromCivilFromDays(b / MsPerDay);
    }
  }

  /** The first and the last day `datetime` represents are day numbers `MinDay` and `MaxDay`. */
  lemma DayBounds()
    ensures DaysFromCivil(Date(1, 1, 1)) == MinDay
    ensures DaysFromCivil(Date(9999, 12, 31)) == MaxDay
  {
    assert YearStart(399) == 145731 && MonthStart(10) == 306 && MonthStart(9) == 275;
  }

  // Day numbers and renderings of the dates the examples below use.

  lemma Epoch()
    ensures DaysFromCivil(Date(1970, 1, 1)) == 0 && RenderDate(Date(1970, 1, 1)) == "1970-01-01"
  {
    assert YearStart(369) == 134774 && MonthStart(10) == 306;
    assert Pad4(1970) == "1970" && Pad2(1) == "01";
  }

  lemma January2024()
    ensures DaysFromCivil(Date(2024, 1, 1)) == 19723 && RenderDate(Date(2024, 1, 1)) == "2024-01-01"
  {
    assert YearStart(23) == 8400 && MonthStart(10) == 306;
    assert Pad4(2024) == "2024" && Pad2(1) == "01";
  }

  lemma February2024()
    ensures DaysFromCivil(Date(2024, 2, 1)) == 19754 && RenderDate(Date(2024, 2, 1)) == "2024-02-01"
  {
    assert YearStart(23) == 8400 && MonthStart(11) == 337;
    assert Pad4(2024) == "2024" && Pad2(2) == "02" && Pad2(1) == "01";
  }

  lemma MidJune2024()
    ensures DaysFromCivil(Date(2024, 6, 15)) == 19889 && RenderDate(Date(2024, 6, 15)) == "2024-06-15"
  {
    assert YearStart(24) == 8766 && MonthStart(3) == 92;
    assert Pad4(2024) == "2024" && Pad2(6) == "06" && Pad2(15) == "15";
  }

  lemma July2024()
    ensures DaysFromCivil(Date(2024, 7, 1)) == 19905 && RenderDate(Date(2024, 7, 1)) == "2024-07-01"
  {
    assert YearStart(24) == 8766 && MonthStart(4) == 122;
    assert Pad4(2024) == "2024" && Pad2(7) == "07" && Pad2(1) == "01";
  }

  lemma ParseDateOnly()
    ensures ParseDtUtc("2024-01-15") == Ok(DateTime(2024, 1, 15, 0, 0, 0))
  {
    assert RenderDate(Date(2024, 1, 15)) == "2024-01-15" by {
      assert Pad4(2024) == "2024" && Pad2(1) == "01" && Pad2(15) == "15";
    }
    ParseRenderDate(Date(2024, 1, 15));
  }

  lemma ParseDateAndTime()
    ensures ParseDtUtc("2024-06-15T14:30:00") == Ok(DateTime(2024, 6, 15, 14, 30, 0))
  {
    var t := DateTime(2024, 6, 15, 14, 30, 0);
    assert Render(t, 'T') == "2024-06-15T14:30:00" by {
      MidJune2024();
      assert Pad2(14) == "14" && Pad2(30) == "30" && Pad2(0) == "00";
    }
    ParseRenderT(t);
  }

  /** Text of the right shape naming no date, and text of another shape, are both refused. */
  lemma ParseMalformed()
    ensures ParseDtUtc("2024-13-01") == Err(BadDate("2024-13-01"))
    ensures ParseDtUtc("2024/01/01") == Err(BadDate("2024/01/01"))
  {
    assert "2024/01/01"[4] != DatePattern[4];
  }

  /** `ms_to_utc_iso` of the first millisecond of a valid date and time `t` is its rendering. */
  lemma MsToUtcIsoAt(t: DateTime)
    requires ValidDateTime(t)
    ensures MsToUtcIso(EpochSeconds(t) * MsPerSecond) == Some(Render(t, ' '))
  {
    assert EpochSeconds(t) * MsPerSecond / MsPerSecond == EpochSeconds(t);
    FromEpochSecondsEpochSeconds(t);
  }

  lemma MsToUtcIsoEpoch()
    ensures MsToUtcIso(0) == Some("1970-01-01 00:00:00")
  {
    var t := DateTime(1970, 1, 1, 0, 0, 0);
    assert Render(t, ' ') == "1970-01-01 00:00:00" by {
      Epoch();
      assert Pad2(0) == "00";
    }
    Epoch();
    assert EpochSeconds(t) == 0;
    MsToUtcIsoAt(t);
  }

  lemma MsToUtcIsoNewYear2024()
    ensures MsToUtcIso(1_704_067_200_000) == Some("2024-01-01 00:00:00")
  {
    var t := DateTime(2024, 1, 1, 0, 0, 0);
    assert Render(t, ' ') == "2024-01-01 00:00:00" by {
      January2024();
      assert Pad2(0) == "00";
    }
    January2024();
    assert EpochSeconds(t) == 1_704_067_200;
    MsToUtcIsoAt(t);
  }

  lemma MsToUtcIsoMidJune2024()
    ensures MsToUtcIso(1_718_452_800_000) == Some("2024-06-15 12:00:00")
  {
    var t := DateTime(2024, 6, 15, 12, 0, 0);
    assert Render(t, ' ') == "2024-06-15 12:00:00" by {
      MidJune2024();
      assert Pad2(12) == "12" && Pad2(0) == "00";
    }
    MidJune2024();
    assert EpochSeconds(t) == 1_718_452_800;
    MsToUtcIsoAt(t);
  }

  // ----- the time range -----

  /** `datetime` bounds, in microseconds since the epoch. */
  const MinUs := MinDay * UsPerDay
  const MaxUs := (MaxDay + 1) * UsPerDay - 1

  /** `int(a / b)`: the quotient truncated toward zero; see `TruncDivTruncates`. */
  function TruncDiv(a: int, b: int): int
    requires b > 0
  {
    if a >= 0 then a / b else -((-a) / b)
  }

  /**
   * Truncation toward zero: the remainder `a - q * b` has the sign of `a` and is smaller than
   * `b` in size, and `TruncDiv` is the only quotient with that remainder.
   */
  lemma TruncDivTruncates(a: int, b: int, q: int)
    requires b > 0
    ensures a >= 0 ==> 0 <= a - TruncDiv(a, b) * b < b
    ensures a < 0 ==> -b < a - TruncDiv(a, b) * b <= 0
    ensures (if a >= 0 then 0 <= a - q * b < b else -b < a - q * b <= 0) ==> q == TruncDiv(a, b)
  {
    var t := TruncDiv(a, b);
    if a >= 0 {
      DivRemainder(a, b);
    } else {
      DivRemainder(-a, b);
      assert t * b == -(((-a) / b) * b);
    }
    if q < t {
      MulBelow(q, t - 1, b);
    } else if q > t {
      MulBelow(t + 1, q, b);
    }
  }

  lemma DivRemainder(x: int, b: int)
    requires x >= 0 && b > 0
    ensures x - (x / b) * b == x % b && 0 <= x % b < b
  {
  }

  lemma MulBelow(x: int, y: int, b: int)
    requires x <= y && b > 0
    ensures x * b <= y * b && (x + 1) * b == x * b + b && (y - 1) * b == y * b - b
  {
  }

  /** `if end:` — an omitted or empty argument falls back. */
  predicate Given(arg: Option<string>)
  {
    arg.Some? && arg.value != ""
  }

  /** An instant given as text, in microseconds since the epoch. */
  function ParseInstantUs(s: string): Result<int, TimeError>
  {
    match ParseDtUtc(s)
    case Ok(t) => Ok(EpochSeconds(t) * UsPerSecond)
    case Err(e) => Err(e)
  }

  /** `end_dt - timedelta(days=days)`, which overflows outside the representable years. */
  function ShiftBackDays(endUs: int, days: int): Result<int, TimeError>
  {
    if days < -MaxTimedeltaDays || days > MaxTimedeltaDays then Err(OutOfRange)
    else
      var us := endUs - days * UsPerDay;
      if us < MinUs || us > MaxUs then Err(OutOfRange) else Ok(us)
  }

  /**
   * `get_range`: `(start_ms, end_ms)`. `end` defaults to the clock reading `nowUs`
   * (microseconds since the epoch), `start` to `end` minus `days` days. The end is
   * parsed first, so its error wins.
   */
  function GetRange(days: int, start: Option<string>, end: Option<string>, nowUs: int): Result<(int, int), TimeError>
  {
    var endR := if Given(end) then ParseInstantUs(end.value) else Ok(nowUs);
    match endR
    case Err(e) => Err(e)
    case Ok(endUs) =>
      var startR := if Given(start) then ParseInstantUs(start.value) else ShiftBackDays(endUs, days);
      match startR
      case Err(e) => Err(e)
      case Ok(startUs) => Ok((TruncDiv(startUs, UsPerMs), TruncDiv(endUs, UsPerMs)))
  }

  /** Whole milliseconds lose nothing when microseconds are truncated to milliseconds. */
  lemma MsExact(ms: int)
    ensures TruncDiv(ms * UsPerMs, UsPerMs) == ms
  {
    if ms < 0 {
      assert -(ms * UsPerMs) == (-ms) * UsPerMs;
    }
  }

  /** Whole seconds, likewise. */
  lemma SecondsToMs(secs: int)
    ensures secs * UsPerSecond == secs * MsPerSecond * UsPerMs
    ensures TruncDiv(secs * UsPerSecond, UsPerMs) == secs * MsPerSecond
  {
    MsExact(secs * MsPerSecond);
  }

  /** Text that parses names the instant of its date and time. */
  lemma ParsedInstant(s: string)
    requires ParseDtUtc(s).Ok?
    ensures ParseInstantUs(s) == Ok(EpochSeconds(ParseDtUtc(s).value) * UsPerSecond)
  {
  }

  /** With both bounds given, they are their own epoch milliseconds. */
  lemma GetRangeExplicit(days: int, start: string, end: string, nowUs: int)
    requires ParseDtUtc(start).Ok? && ParseDtUtc(end).Ok?
    ensures GetRange(days, Some(start), Some(end), nowUs)
         == Ok((EpochSeconds(ParseDtUtc(start).value) * MsPerSecond, EpochSeconds(ParseDtUtc(end).value) * MsPerSecond))
  {
    assert start != "" && end != "";
    var s := EpochSeconds(ParseDtUtc(start).value);
    var e := EpochSeconds(ParseDtUtc(end).value);
    assert ParseInstantUs(start) == Ok(s * UsPerSecond);
    assert ParseInstantUs(end) == Ok(e * UsPerSecond);
    SecondsToMs(s);
    SecondsToMs(e);
  }

  /** A malformed bound fails with the parse error of that text; the end is looked at first. */
  lemma GetRangeBadEnd(days: int, start: Option<string>, end: string, nowUs: int)
    requires end != "" && ParseDtUtc(end).Err?
    ensures GetRange(days, start, Some(end), nowUs) == Err(BadDate(end))
  {
  }

  /**
   * A start derived from a parsed end lies exactly `days` days before it, unless the shift
   * leaves the years `datetime` represents or exceeds what `timedelta` accepts.
   */
  lemma GetRangeDaysFromEnd(days: int, end: string, nowUs: int)
    requires ParseDtUtc(end).Ok?
    ensures var e := EpochSeconds(ParseDtUtc(end).value) * MsPerSecond;
            var startUs := e * UsPerMs - days * UsPerDay;
            GetRange(days, None, Some(end), nowUs)
            == if -MaxTimedeltaDays <= days <= MaxTimedeltaDays && MinUs <= startUs <= MaxUs
               then Ok((e - days * MsPerDay, e))
               else Err(OutOfRange)
  {
    var secs := EpochSeconds(ParseDtUtc(end).value);
    var e := secs * MsPerSecond;
    ParsedInstant(end);
    SecondsToMs(secs);
    GetRangeFromParsedEnd(days, end, nowUs, e * UsPerMs);
    ShiftBackWholeMs(days, e);
  }

  /** With the end parsed and no start, the start is the end shifted back by `days` days. */
  lemma GetRangeFromParsedEnd(days: int, end: string, nowUs: int, endUs: int)
    requires end != "" && ParseInstantUs(end) == Ok(endUs)
    ensures GetRange(days, None, Some(end), nowUs)
            == match ShiftBackDays(endUs, days)
               case Ok(startUs) => Ok((TruncDiv(startUs, UsPerMs), TruncDiv(endUs, UsPerMs)))
               case Err(err) => Err(err)
  {
  }

  /** Shifting whole milliseconds back by whole days. */
  lemma ShiftBackWholeMs(days: int, e: int)
    ensures var startUs := e * UsPerMs - days * UsPerDay;
            && ShiftBackDays(e * UsPerMs, days)
               == (if -MaxTimedeltaDays <= days <= MaxTimedeltaDays && MinUs <= startUs <= MaxUs then Ok(startUs) else Err(OutOfRange))
            && TruncDiv(startUs, UsPerMs) == e - days * MsPerDay
  {
    MsExact(e - days * MsPerDay);
    assert (e - days * MsPerDay) * UsPerMs == e * UsPerMs - days * UsPerDay;
  }

  /** With neither bound given, the range ends at the clock reading and spans exactly `days` days. */
  lemma GetRangeDaysFromNow(days: int, nowUs: int)
    requires -MaxTimedeltaDays <= days <= MaxTimedeltaDays
    requires 0 <= nowUs - days * UsPerDay <= MaxUs && 0 <= nowUs
    ensures GetRange(days, None, None, nowUs) == Ok((nowUs / UsPerMs - days * MsPerDay, nowUs / UsPerMs))
  {
    assert MinUs < 0;
  }

  /**
   * Before 1970 the truncation of `int()` rounds the start up: with the clock 1.5 ms after
   * the epoch, a one-day range spans one day less a millisecond.
   */
  lemma GetRangeTruncatesBeforeEpoch()
    ensures GetRange(1, None, None, 1500) == Ok((-86_399_998, 1))
  {
    assert ShiftBackDays(1500, 1) == Ok(-86_399_998_500);
  }

  lemma GetRangeExample()
    ensures GetRange(180, Some("2024-01-01"), Some("2024-07-01"), 0) == Ok((1_704_067_200_000, 1_719_792_000_000))
  {
    January2024();
    July2024();
    ParseRenderDate(Date(2024, 1, 1));
    ParseRenderDate(Date(2024, 7, 1));
    assert EpochSeconds(DateTime(2024, 1, 1, 0, 0, 0)) == 1_704_067_200;
    assert EpochSeconds(DateTime(2024, 7, 1, 0, 0, 0)) == 1_719_792_000;
    GetRangeExplicit(180, "2024-01-01", "2024-07-01", 0);
  }

  lemma GetRangeDaysExample(nowUs: int)
    ensures GetRange(30, None, Some("2024-02-01"), nowUs) == Ok((1_706_745_600_000 - 30 * MsPerDay, 1_706_745_600_000))
  {
    February2024();
    ParseRenderDate(Date(2024, 2, 1));
    assert EpochSeconds(DateTime(2024, 2, 1, 0, 0, 0)) == 1_706_745_600;
    GetRangeDaysFromEnd(30, "2024-02-01", nowUs);
  }
}
