/** The timestamp arithmetic of the kernel log daemon, against the rules of the Gregorian calendar. */
module Klogd {
  import opened Common


  datatype Date = Date(y: int, m: int, d: int)

  // ---------- the calendar rules ----------

  predicate IsLeap(y: int)
  {
    y % 4 == 0 && (y % 100 != 0 || y % 400 == 0)
  }

  function DaysInMonth(y: int, m: int): int
  {
    if m == 2 then (if IsLeap(y) then 29 else 28)
    else if m == 4 || m == 6 || m == 9 || m == 11 then 30
    else 31
  }

  predicate IsDate(x: Date)
  {
    1 <= x.m <= 12 && 1 <= x.d <= DaysInMonth(x.y, x.m)
  }

  function NextDay(x: Date): Date
  {
    if x.d < DaysInMonth(x.y, x.m) then Date(x.y, x.m, x.d + 1)
    else if x.m < 12 then Date(x.y, x.m + 1, 1)
    else Date(x.y + 1, 1, 1)
  }

  // ---------- civil_from_days ----------

  const ERA: int := 146097

  /** C division: towards zero. */
  function TruncDiv(a: int, b: int): int
    requires b > 0
  {
    if a >= 0 then a / b else -((-a) / b)
  }

  function YearOfEra(doe: int): int
  {
    (doe - doe / 1460 + doe / 36524 - doe / 146096) / 365
  }

  /** Days from the start of the era to the first of March of its year y. */
  function YearStart(y: int): int
  {
    365 * y + y / 4 - y / 100
  }

  /** Days from the first of March to the start of month mp, March being 0. */
  function MonthStart(mp: int): int
  {
    (153 * mp + 2) / 5
  }

  /** civil_from_days before its results are narrowed to int. */
  function Civil(z: int): Date
  {
    var era := TruncDiv(if z >= 0 then z else z - 146096, ERA);
    var doe := z - era * ERA;
    var yoe := YearOfEra(doe);
    var doy := doe - YearStart(yoe);
    var mp := (5 * doy + 2) / 153;
    var dd := doy - MonthStart(mp) + 1;
    var mm := mp + if mp < 10 then 3 else -9;
    Date(yoe + era * 400 + (if mm <= 2 then 1 else 0), mm, dd)
  }

  lemma EraDay(z: int)
    ensures var era := TruncDiv(if z >= 0 then z else z - 146096, ERA);
            0 <= z - era * ERA < ERA && era == z / ERA
  {
  }

  /** A day of an era, as century, four-year cycle, year and day of year. */
  ghost predicate Splits(doe: int, b: int, q: int, s: int, doy: int)
  {
    && doe == 36524 * b + 1461 * q + 365 * s + doy
    && 0 <= b <= 3 && 0 <= q <= 24 && 0 <= s <= 3 && 0 <= doy <= 365
    && (doy == 365 ==> s == 3 && (q == 24 ==> b == 3))
  }

  lemma Split(doe: int) returns (b: int, q: int, s: int, doy: int)
    requires 0 <= doe < ERA
    ensures Splits(doe, b, q, s, doy)
  {
    b := if doe / 36524 > 3 then 3 else doe / 36524;
    var r := doe - 36524 * b;
    q := r / 1461;
    var r2 := r - 1461 * q;
    s := if r2 / 365 > 3 then 3 else r2 / 365;
    doy := r2 - 365 * s;
  }

  lemma YearStartOf(b: int, q: int, s: int)
    requires 0 <= b <= 3 && 0 <= q <= 24 && 0 <= s <= 3
    ensures YearStart(100 * b + 4 * q + s) == 36524 * b + 1461 * q + 365 * s
  {
    var y := 100 * b + 4 * q + s;
    assert y / 4 == 25 * b + q && y / 100 == b;
  }

  /** The year formula finds the year whose days contain doe. */
  lemma YearOfEraIsRight(doe: int, b: int, q: int, s: int, doy: int)
    requires Splits(doe, b, q, s, doy)
    ensures YearOfEra(doe) == 100 * b + 4 * q + s && doe - YearStart(YearOfEra(doe)) == doy
  {
    YearStartOf(b, q, s);
    Corrections(doe, b, q, s, doy);
    var n := doe - doe / 1460 + doe / 36524 - doe / 146096;
    assert 365 * (100 * b + 4 * q + s) <= n < 365 * (100 * b + 4 * q + s) + 365;
  }

  /** The three correction terms, together, remove the leap days before the year and no more. */
  lemma Corrections(doe: int, b: int, q: int, s: int, doy: int)
    requires Splits(doe, b, q, s, doy)
    ensures 0 <= 24 * b + q + doy - doe / 1460 + doe / 36524 - doe / 146096 < 365
  {
    assert doe < 36524 * b + 36524 || doe == 146096;
    assert doe != 146096 ==> doe / 36524 == b && doe / 146096 == 0;
    var e := 24 * b + 1461 * q + 365 * s + doy;
    assert doe / 1460 == 25 * b + e / 1460;
    if e < 1460 * q {
      assert false;
    } else if e < 1460 * (q + 1) {
      assert e / 1460 == q;
    } else {
      assert e / 1460 == q + 1;
    }
  }

  // ---------- from parts to date ----------

  /** The month formula, as the table of month lengths from March on. */
  lemma MonthTable(doy: int)
    requires 0 <= doy <= 365
    ensures (5 * doy + 2) / 153
         == if doy < 31 then 0 else if doy < 61 then 1 else if doy < 92 then 2 else if doy < 122 then 3
            else if doy < 153 then 4 else if doy < 184 then 5 else if doy < 214 then 6 else if doy < 245 then 7
            else if doy < 275 then 8 else if doy < 306 then 9 else if doy < 337 then 10 else 11
  {
  }

  /** The date of day doy of the year that starts on the first of March of year y. */
  function FromParts(y: int, doy: int): Date
  {
    var mp := (5 * doy + 2) / 153;
    Date(y + (if mp < 10 then 0 else 1), mp + (if mp < 10 then 3 else -9), doy - MonthStart(mp) + 1)
  }

  /** Days of the year that starts on the first of March of year y. */
  function MarchYearLength(y: int): int
  {
    if IsLeap(y + 1) then 366 else 365
  }

  lemma PartsAreDates(y: int, doy: int)
    requires 0 <= doy < MarchYearLength(y)
    ensures IsDate(FromParts(y, doy))
    ensures NextDay(FromParts(y, doy)) == if doy + 1 < MarchYearLength(y) then FromParts(y, doy + 1) else FromParts(y + 1, 0)
  {
    MonthTable(doy);
    if doy < 365 {
      MonthTable(doy + 1);
    }
    MonthTable(0);
  }

  lemma EraLeap(era: int, k: int)
    ensures IsLeap(400 * era + k) == IsLeap(k)
  {
    SameRemainder(400 * era + k, k, 400, era);
    SameRemainder(400 * era + k, k, 100, 4 * era);
    SameRemainder(400 * era + k, k, 4, 100 * era);
  }

  lemma SameRemainder(x: int, k: int, n: int, c: int)
    requires n > 0 && x == n * c + k
    ensures x % n == k % n
  {
    QuotientIs(x, n, c + k / n, k % n);
  }

  lemma PartsLength(b: int, q: int, s: int)
    requires 0 <= b <= 3 && 0 <= q <= 24 && 0 <= s <= 3
    ensures MarchYearLength(100 * b + 4 * q + s) == if s == 3 && (q == 24 ==> b == 3) then 366 else 365
  {
    var y := 100 * b + 4 * q + s + 1;
    assert y % 4 == 0 <==> s == 3;
    assert y % 100 == 0 <==> q == 24 && s == 3;
    assert y % 400 == 0 <==> b == 3 && q == 24 && s == 3;
  }

  /** What day z is, in the parts of its era. */
  lemma CivilParts(z: int, era: int, b: int, q: int, s: int, doy: int)
    requires Splits(z - era * ERA, b, q, s, doy)
    ensures Civil(z) == FromParts(400 * era + 100 * b + 4 * q + s, doy)
    ensures doy < MarchYearLength(400 * era + 100 * b + 4 * q + s)
  {
    EraDay(z);
    QuotientIs(z, ERA, era, z - era * ERA);
    YearOfEraIsRight(z - era * ERA, b, q, s, doy);
    EraLeap(era, 100 * b + 4 * q + s + 1);
    PartsLength(b, q, s);
  }

  /** The parts of the day after. */
  lemma CivilNextParts(z: int, era: int, b: int, q: int, s: int, doy: int)
    requires Splits(z - era * ERA, b, q, s, doy)
    ensures var y := 400 * era + 100 * b + 4 * q + s;
            Civil(z + 1) == if doy + 1 < MarchYearLength(y) then FromParts(y, doy + 1) else FromParts(y + 1, 0)
  {
    hide Civil, FromParts, IsLeap;
    EraLeap(era, 100 * b + 4 * q + s + 1);
    PartsLength(b, q, s);
    var y := 400 * era + 100 * b + 4 * q + s;
    if doy + 1 < MarchYearLength(y) {
      CivilParts(z + 1, era, b, q, s, doy + 1);
    } else if s < 3 {
      CivilParts(z + 1, era, b, q, s + 1, 0);
    } else if q < 24 {
      CivilParts(z + 1, era, b, q + 1, 0, 0);
    } else if b < 3 {
      CivilParts(z + 1, era, b + 1, 0, 0, 0);
    } else {
      CivilParts(z + 1, era + 1, 0, 0, 0, 0);
    }
  }

  /** Every day number, negative ones included, is a date, and the next number is the next day. */
  lemma CivilIsCalendar(z: int)
    ensures IsDate(Civil(z)) && Civil(z + 1) == NextDay(Civil(z))
  {
    hide Civil, FromParts, NextDay, IsDate, Splits, MarchYearLength;
    var era := z / ERA;
    var b, q, s, doy := Split(z - era * ERA);
    CivilParts(z, era, b, q, s, doy);
    CivilNextParts(z, era, b, q, s, doy);
    PartsAreDates(400 * era + 100 * b + 4 * q + s, doy);
  }

  // ---------- counting days by the rules ----------

  ghost function YearLength(y: int): int { if IsLeap(y) then 366 else 365 }

  /** Days from 1970-01-01 to the first of January of year y. */
  ghost function DaysBeforeYear(y: int): int
    decreases if y >= 1970 then y - 1970 else 1970 - y
  {
    if y == 1970 then 0
    else if y > 1970 then DaysBeforeYear(y - 1) + YearLength(y - 1)
    else DaysBeforeYear(y + 1) - YearLength(y)
  }

  ghost function DaysBeforeMonth(y: int, m: int): int
    decreases m
  {
    if m <= 1 then 0 else DaysBeforeMonth(y, m - 1) + DaysInMonth(y, m - 1)
  }

  /** Days from 1970-01-01 to x. */
  ghost function DayNumber(x: Date): int
  {
    DaysBeforeYear(x.y) + DaysBeforeMonth(x.y, x.m) + x.d - 1
  }

  lemma YearStep(y: int)
    ensures DaysBeforeYear(y + 1) == DaysBeforeYear(y) + YearLength(y)
  {
  }

  lemma MonthsAdd(y: int, m: int)
    requires 1 <= m <= 13
    ensures DaysBeforeMonth(y, m)
         == (if m <= 2 then 31 * (m - 1)
             else (if IsLeap(y) then 60 else 59)
                  + if m == 3 then 0 else if m == 4 then 31 else if m == 5 then 61 else if m == 6 then 92
                    else if m == 7 then 122 else if m == 8 then 153 else if m == 9 then 184 else if m == 10 then 214
                    else if m == 11 then 245 else if m == 12 then 275 else 306)
  {
    if m > 1 {
      MonthsAdd(y, m - 1);
    }
  }

  lemma NextDayCounts(x: Date)
    requires IsDate(x)
    ensures DayNumber(NextDay(x)) == DayNumber(x) + 1
  {
    YearStep(x.y);
    MonthsAdd(x.y, x.m);
    MonthsAdd(x.y, 13);
    MonthsAdd(x.y, if x.m < 12 then x.m + 1 else 12);
    MonthsAdd(x.y + 1, 1);
  }

  lemma {:induction false} YearsClosedForm(y: int)
    ensures DaysBeforeYear(y) == 365 * (y - 1970) + Leaps(y) - Leaps(1970)
    decreases if y >= 1970 then y - 1970 else 1970 - y
  {
    if y > 1970 {
      YearsClosedForm(y - 1);
      LeapsStep(y - 1);
    } else if y < 1970 {
      YearsClosedForm(y + 1);
      LeapsStep(y);
    }
  }

  /** Leap years before year y, counted from year 1. */
  ghost function Leaps(y: int): int
  {
    (y - 1) / 4 - (y - 1) / 100 + (y - 1) / 400
  }

  lemma QuotientStep(y: int, n: int)
    requires n > 1
    ensures y / n - (y - 1) / n == if y % n == 0 then 1 else 0
  {
    if y % n == 0 {
      QuotientIs(y - 1, n, y / n - 1, n - 1);
    } else {
      QuotientIs(y - 1, n, y / n, y % n - 1);
    }
  }

  lemma LeapsStep(y: int)
    ensures Leaps(y + 1) == Leaps(y) + if IsLeap(y) then 1 else 0
  {
    QuotientStep(y, 4);
    QuotientStep(y, 100);
    QuotientStep(y, 400);
  }

  /** Days by which civil_from_days runs early: from 0000-03-01 to 1970-01-01. */
  const SHIFT: int := 719468

  lemma FirstDay()
    ensures Civil(0) == Date(0, 3, 1)
  {
    hide Civil;
    CivilParts(0, 0, 0, 0, 0, 0);
  }

  lemma FirstDayNumber(y: int)
    requires y == 0
    ensures DayNumber(Date(y, 3, 1)) == -SHIFT
  {
    hide DaysBeforeYear, DaysBeforeMonth;
    YearsClosedForm(y);
    MonthsAdd(y, 3);
  }

  /**
    civil_from_days counts from 0000-03-01, not from 1970-01-01 as its callers
    expect: for every day number its date is SHIFT days early.
   */
  lemma {:induction false} CivilIsEarly(z: int)
    ensures DayNumber(Civil(z)) == z - SHIFT
    decreases if z >= 0 then z else -z
  {
    hide Civil, DayNumber, NextDay, IsDate;
    if z == 0 {
      FirstDay();
      FirstDayNumber(z);
    } else if z > 0 {
      CivilIsEarly(z - 1);
      CivilIsCalendar(z - 1);
      NextDayCounts(Civil(z - 1));
    } else {
      CivilIsEarly(z + 1);
      CivilIsCalendar(z);
      NextDayCounts(Civil(z));
    }
  }

  lemma {:induction false} LaterYearLaterDay(y: int, w: int)
    requires y < w
    ensures DaysBeforeYear(y) + YearLength(y) <= DaysBeforeYear(w)
    decreases w - y
  {
    YearStep(w - 1);
    if y < w - 1 {
      LaterYearLaterDay(y, w - 1);
    }
  }

  lemma WithinYear(x: Date)
    requires IsDate(x)
    ensures 0 <= DaysBeforeMonth(x.y, x.m) + x.d - 1 < YearLength(x.y)
  {
    MonthsAdd(x.y, x.m);
  }

  lemma DayNumberInjective(x: Date, w: Date)
    requires IsDate(x) && IsDate(w) && DayNumber(x) == DayNumber(w)
    ensures x == w
  {
    WithinYear(x);
    WithinYear(w);
    if x.y < w.y {
      LaterYearLaterDay(x.y, w.y);
    } else if w.y < x.y {
      LaterYearLaterDay(w.y, x.y);
    }
    MonthsAdd(x.y, x.m);
    MonthsAdd(w.y, w.m);
  }

  /** With the missing shift put back, civil_from_days inverts the count of days exactly. */
  lemma CivilInvertsShifted(x: Date)
    requires IsDate(x)
    ensures Civil(DayNumber(x) + SHIFT) == x
  {
    var z := DayNumber(x) + SHIFT;
    CivilIsEarly(z);
    CivilIsCalendar(z);
    DayNumberInjective(Civil(z), x);
  }

  // ---------- what is printed ----------

  /** Conversion of a 64-bit value to int: the low 32 bits, signed. */
  function ToInt(x: int): int
  {
    (x + 0x8000_0000) % 0x1_0000_0000 - 0x8000_0000
  }

  lemma ToIntFits(x: int)
    ensures ToInt(x) == x <==> -0x8000_0000 <= x < 0x8000_0000
  {
  }

  /** civil_from_days with its int results. */
  method CivilFromDays(z: int) returns (y: int, m: int, d: int)
    ensures Date(y, m, d) == Civil(z) <==> -0x8000_0000 <= Civil(z).y < 0x8000_0000
    ensures Date(y, m, d) == Civil(z).(y := ToInt(Civil(z).y))
  {
    hide Civil;
    var x := Civil(z);
    ToIntFits(x.y);
    y, m, d := ToInt(x.y), x.m, x.d;
  }

  /** The split of an epoch second in format_timestamp, before and after the epoch. */
  method SplitSeconds(secs: int) returns (days: int, hr: int, mi: int, sec: int)
    ensures 0 <= hr < 24 && 0 <= mi < 60 && 0 <= sec < 60
    ensures secs == 86400 * days + 3600 * hr + 60 * mi + sec
  {
    days := TruncDiv(secs, 86400);
    var rem := secs - days * 86400;
    if rem < 0 {
      rem := rem + 86400;
      days := days - 1;
    }
    hr, mi, sec := rem / 3600, rem / 60 % 60, rem % 60;
  }

  /** format_timestamp's fields: the time of day is right, the date is SHIFT days early, its year narrowed to int. */
  method Timestamp(secs: int) returns (y: int, m: int, d: int, hr: int, mi: int, sec: int)
    ensures 0 <= hr < 24 && 0 <= mi < 60 && 0 <= sec < 60
    ensures var date := Civil(secs / 86400);
      && IsDate(date) && 86400 * (DayNumber(date) + SHIFT) + 3600 * hr + 60 * mi + sec == secs
      && m == date.m && d == date.d && y == ToInt(date.y)
      && (y == date.y <==> -0x8000_0000 <= date.y < 0x8000_0000)
  {
    hide Civil, DayNumber, IsDate;
    var days;
    days, hr, mi, sec := SplitSeconds(secs);
    assert days == secs / 86400;
    CivilIsEarly(days);
    CivilIsCalendar(days);
    ToIntFits(Civil(days).y);
    y, m, d := CivilFromDays(days);
  }
}
