/** UTC civil time in the proleptic Gregorian calendar, as Python's
    `datetime` computes it: epoch seconds to year, month, day, hour, minute
    and second, and back. Days are counted from 0000-01-01 with closed-form
    leap-year counts; the civil date of a day number is found by locating
    its 400-year era and then walking the years of that era and the months
    of that year. */
module Calendar {

  predicate IsLeap(y: int)
  {
    y % 4 == 0 && (y % 100 != 0 || y % 400 == 0)
  }

  function DaysInYear(y: int): int
  {
    if IsLeap(y) then 366 else 365
  }

  function DaysInMonth(y: int, m: int): int
    requires 1 <= m <= 12
  {
    if m == 2 then (if IsLeap(y) then 29 else 28)
    else if m == 4 || m == 6 || m == 9 || m == 11 then 30
    else 31
  }

  /** Days from 0000-01-01 to the first day of year `y`: the lengths of the
      years in between, counted backwards for years before 0. */
  function DaysBeforeYear(y: int): int
    decreases if y < 0 then -y else y
  {
    if y == 0 then 0
    else if y > 0 then DaysBeforeYear(y - 1) + DaysInYear(y - 1)
    else DaysBeforeYear(y + 1) - DaysInYear(y)
  }

  /** The closed form of `DaysBeforeYear`: the three divisions count the
      years before `y` that are multiples of 4, 100 and 400. */
  function ClosedDays(y: int): int
  {
    365 * y + (y + 3) / 4 - (y + 99) / 100 + (y + 399) / 400
  }

  lemma ClosedStep(y: int)
    ensures ClosedDays(y + 1) == ClosedDays(y) + DaysInYear(y)
  {
    Step4(y);
    Step100(y);
    Step400(y);
  }

  lemma {:induction false} DaysBeforeYearClosed(y: int)
    ensures DaysBeforeYear(y) == ClosedDays(y)
    decreases if y < 0 then -y else y
  {
    if y > 0 {
      DaysBeforeYearClosed(y - 1);
      ClosedStep(y - 1);
    } else if y < 0 {
      DaysBeforeYearClosed(y + 1);
      ClosedStep(y);
    }
  }

  /** Days from the first of January of `y` to the first day of month `m`;
      `m == 13` gives the length of the year. */
  function DaysBeforeMonth(y: int, m: int): int
    requires 1 <= m <= 13
  {
    var leap := if IsLeap(y) then 1 else 0;
    if m == 1 then 0
    else if m == 2 then 31
    else if m == 3 then 59 + leap
    else if m == 4 then 90 + leap
    else if m == 5 then 120 + leap
    else if m == 6 then 151 + leap
    else if m == 7 then 181 + leap
    else if m == 8 then 212 + leap
    else if m == 9 then 243 + leap
    else if m == 10 then 273 + leap
    else if m == 11 then 304 + leap
    else if m == 12 then 334 + leap
    else 365 + leap
  }

  /** Day 0 of the Unix epoch, 1970-01-01, counted from 0000-01-01. */
  const EpochDay: int := 719528
  /** Days in 400 consecutive years. */
  const DaysPerEra: int := 146097
  const SecondsPerDay: int := 86400
  const SecondsPerHour: int := 3600

  lemma EpochDayIs1970()
    ensures DaysBeforeYear(1970) == EpochDay
  {
    DaysBeforeYearClosed(1970);
  }

  lemma YearStep(y: int)
    ensures DaysBeforeYear(y + 1) == DaysBeforeYear(y) + DaysInYear(y)
  {
  }

  lemma Step4(y: int)
    ensures (y + 4) / 4 == (y + 3) / 4 + (if y % 4 == 0 then 1 else 0)
  {
  }

  lemma Step100(y: int)
    ensures (y + 100) / 100 == (y + 99) / 100 + (if y % 100 == 0 then 1 else 0)
  {
  }

  lemma Step400(y: int)
    ensures (y + 400) / 400 == (y + 399) / 400 + (if y % 400 == 0 then 1 else 0)
  {
  }

  lemma MonthStep(y: int, m: int)
    requires 1 <= m <= 12
    ensures DaysBeforeMonth(y, m + 1) == DaysBeforeMonth(y, m) + DaysInMonth(y, m)
  {
  }

  lemma MonthsFillYear(y: int)
    ensures DaysBeforeMonth(y, 13) == DaysInYear(y)
  {
  }

  /** Shifting a year by whole eras shifts its first day by whole eras. */
  lemma EraShift(era: int, k: int)
    ensures DaysBeforeYear(400 * era + k) == DaysPerEra * era + DaysBeforeYear(k)
  {
    DaysBeforeYearClosed(400 * era + k);
    DaysBeforeYearClosed(k);
    ClosedShift(era, k);
  }

  lemma ClosedShift(era: int, k: int)
    ensures ClosedDays(400 * era + k) == DaysPerEra * era + ClosedDays(k)
  {
    assert (400 * era + k + 3) / 4 == 100 * era + (k + 3) / 4;
    assert (400 * era + k + 99) / 100 == 4 * era + (k + 99) / 100;
    assert (400 * era + k + 399) / 400 == era + (k + 399) / 400;
  }

  lemma EraLength()
    ensures DaysBeforeYear(400) == DaysPerEra
  {
    DaysBeforeYearClosed(400);
  }

  /** Later years start later: at least 365 days per year in between. */
  lemma {:induction false} YearsIncrease(a: int, b: int)
    requires a <= b
    ensures DaysBeforeYear(a) + 365 * (b - a) <= DaysBeforeYear(b)
    decreases b - a
  {
    if a < b {
      YearsIncrease(a, b - 1);
      YearStep(b - 1);
    }
  }

  /** The year of era-relative day `rem`, searched from year `k` upward. */
  function YearOfEra(rem: int, k: int): (yoe: int)
    requires 0 <= k < 400 && DaysBeforeYear(k) <= rem < DaysPerEra
    ensures k <= yoe < 400
    ensures DaysBeforeYear(yoe) <= rem < DaysBeforeYear(yoe + 1)
    decreases 400 - k
  {
    EraLength();
    if rem < DaysBeforeYear(k + 1) then k else YearOfEra(rem, k + 1)
  }

  /** The year containing day `n` (counted from 0000-01-01): found inside
      the first era, after shifting `n` there by whole eras. */
  function YearOf(n: int): (y: int)
    ensures DaysBeforeYear(y) <= n < DaysBeforeYear(y + 1)
    decreases if n < 0 then DaysPerEra - n else n
  {
    if n < 0 then
      var y := YearOf(n + DaysPerEra) - 400;
      EraShift(1, y);
      EraShift(1, y + 1);
      y
    else if n < DaysPerEra then
      assert DaysBeforeYear(0) == 0;
      YearOfEra(n, 0)
    else
      var y := YearOf(n - DaysPerEra) + 400;
      EraShift(1, y - 400);
      EraShift(1, y - 399);
      y
  }

  /** Only one year contains a given day. */
  lemma YearUnique(n: int, y1: int, y2: int)
    requires DaysBeforeYear(y1) <= n < DaysBeforeYear(y1 + 1)
    requires DaysBeforeYear(y2) <= n < DaysBeforeYear(y2 + 1)
    ensures y1 == y2
  {
    if y1 < y2 {
      YearsIncrease(y1 + 1, y2);
    } else if y2 < y1 {
      YearsIncrease(y2 + 1, y1);
    }
  }

  /** The month of day-of-year `doy` in year `y`, searched from month `m` upward. */
  function MonthFrom(y: int, doy: int, m: int): (r: int)
    requires 1 <= m <= 12 && DaysBeforeMonth(y, m) <= doy < DaysInYear(y)
    ensures m <= r <= 12
    ensures DaysBeforeMonth(y, r) <= doy < DaysBeforeMonth(y, r + 1)
    decreases 12 - m
  {
    if doy < DaysBeforeMonth(y, m + 1) then m else MonthFrom(y, doy, m + 1)
  }

  lemma MonthUnique(y: int, doy: int, m1: int, m2: int)
    requires 1 <= m1 <= 12 && 1 <= m2 <= 12
    requires DaysBeforeMonth(y, m1) <= doy < DaysBeforeMonth(y, m1 + 1)
    requires DaysBeforeMonth(y, m2) <= doy < DaysBeforeMonth(y, m2 + 1)
    ensures m1 == m2
  {
  }

  datatype Date = Date(year: int, month: int, day: int)

  predicate ValidDate(d: Date)
  {
    1 <= d.month <= 12 && 1 <= d.day <= DaysInMonth(d.year, d.month)
  }

  /** The number of days from 1970-01-01 to `d` (negative before it). */
  function DaysFromCivil(d: Date): int
    requires 1 <= d.month <= 12
  {
    DaysBeforeYear(d.year) - EpochDay + DaysBeforeMonth(d.year, d.month) + d.day - 1
  }

  /** The civil date of epoch day `z`: a real calendar date that counts back
      to `z`. */
  function CivilFromDays(z: int): (d: Date)
    ensures ValidDate(d) && DaysFromCivil(d) == z
  {
    var n := z + EpochDay;
    var y := YearOf(n);
    YearStep(y);
    MonthsFillYear(y);
    var doy := n - DaysBeforeYear(y);
    var m := MonthFrom(y, doy, 1);
    MonthStep(y, m);
    Date(y, m, doy - DaysBeforeMonth(y, m) + 1)
  }

  /** Every calendar date is the civil date of its own day number, so
      `CivilFromDays` and `DaysFromCivil` are inverse bijections. */
  lemma CivilFromDaysOfCivil(d: Date)
    requires ValidDate(d)
    ensures CivilFromDays(DaysFromCivil(d)) == d
  {
    DaysFromCivilInjective(CivilFromDays(DaysFromCivil(d)), d);
  }

  /** Two calendar dates with the same day number are the same date. */
  lemma DaysFromCivilInjective(c: Date, d: Date)
    requires ValidDate(c) && ValidDate(d) && DaysFromCivil(c) == DaysFromCivil(d)
    ensures c == d
  {
    DayOfYearBounds(c);
    DayOfYearBounds(d);
    var dc := DaysBeforeMonth(c.year, c.month) + c.day - 1;
    var dd := DaysBeforeMonth(d.year, d.month) + d.day - 1;
    YearAndDayUnique(c.year, dc, d.year, dd);
    MonthUnique(d.year, dd, c.month, d.month);
  }

  /** A day number fixes the year and the day within it. */
  lemma YearAndDayUnique(y1: int, doy1: int, y2: int, doy2: int)
    requires 0 <= doy1 < DaysInYear(y1) && 0 <= doy2 < DaysInYear(y2)
    requires DaysBeforeYear(y1) + doy1 == DaysBeforeYear(y2) + doy2
    ensures y1 == y2 && doy1 == doy2
  {
    YearStep(y1);
    YearStep(y2);
    YearUnique(DaysBeforeYear(y1) + doy1, y1, y2);
  }

  /** The day of the year of a date lies in its month and in its year. */
  lemma DayOfYearBounds(d: Date)
    requires ValidDate(d)
    ensures var doy := DaysBeforeMonth(d.year, d.month) + d.day - 1;
            && DaysBeforeMonth(d.year, d.month) <= doy < DaysBeforeMonth(d.year, d.month + 1)
            && doy < DaysInYear(d.year)
  {
    MonthStep(d.year, d.month);
    MonthsFillYear(d.year);
  }

  /** Year 1 to year 9999 (`datetime.MINYEAR` to `datetime.MAXYEAR`): the
      epoch seconds Python's `datetime` can represent. */
  const MinInstant: int := -62135596800
  const MaxInstant: int := 253402300799

  type Instant = t: int | MinInstant <= t <= MaxInstant witness 0

  datatype DateTime = DateTime(date: Date, hour: int, minute: int, second: int)

  predicate ValidDateTime(dt: DateTime)
  {
    ValidDate(dt.date) && 0 <= dt.hour < 24 && 0 <= dt.minute < 60 && 0 <= dt.second < 60
  }

  /** A date-time `datetime` can hold, with a four-digit year. */
  type CivilTime = dt: DateTime | ValidDateTime(dt) && 1 <= dt.date.year <= 9999
    witness DateTime(Date(1970, 1, 1), 0, 0, 0)

  /** The epoch seconds of a UTC date-time. */
  function EpochSeconds(dt: DateTime): int
    requires 1 <= dt.date.month <= 12
  {
    DaysFromCivil(dt.date) * SecondsPerDay + dt.hour * SecondsPerHour + dt.minute * 60 + dt.second
  }

  /** `datetime.fromtimestamp(t, tz=timezone.utc)` for whole seconds: the UTC
      date-time whose epoch seconds are `t`. */
  function ToDateTime(t: int): (dt: DateTime)
    ensures ValidDateTime(dt) && EpochSeconds(dt) == t
  {
    var secs := t % SecondsPerDay;
    DateTime(CivilFromDays(t / SecondsPerDay), secs / SecondsPerHour, secs % SecondsPerHour / 60, secs % 60)
  }

  /** The converse round trip: a valid date-time is recovered from its epoch seconds. */
  lemma ToDateTimeOfEpochSeconds(dt: DateTime)
    requires ValidDateTime(dt)
    ensures ToDateTime(EpochSeconds(dt)) == dt
  {
    var t := EpochSeconds(dt);
    var z := DaysFromCivil(dt.date);
    var s := dt.hour * SecondsPerHour + dt.minute * 60 + dt.second;
    assert 0 <= s < SecondsPerDay;
    assert t / SecondsPerDay == z && t % SecondsPerDay == s;
    CivilFromDaysOfCivil(dt.date);
  }

  /** Every instant `datetime` accepts has a four-digit year, and the two
      bounds are the first and last second of years 1 and 9999. */
  lemma InstantYears(t: Instant)
    ensures 1 <= ToDateTime(t).date.year <= 9999
  {
    var n := t / SecondsPerDay + EpochDay;
    var y := ToDateTime(t).date.year;
    assert y == YearOf(n);
    DaysBeforeYearClosed(1);
    DaysBeforeYearClosed(10000);
    assert DaysBeforeYear(1) <= n < DaysBeforeYear(10000);
    if y < 1 {
      YearsIncrease(y + 1, 1);
    } else if y > 9999 {
      YearsIncrease(10000, y);
    }
  }

  lemma FirstInstant()
    ensures ToDateTime(MinInstant) == DateTime(Date(1, 1, 1), 0, 0, 0)
  {
    var dt := DateTime(Date(1, 1, 1), 0, 0, 0);
    DaysBeforeYearClosed(1);
    assert EpochSeconds(dt) == MinInstant;
    ToDateTimeOfEpochSeconds(dt);
  }

  lemma LastInstant()
    ensures ToDateTime(MaxInstant) == DateTime(Date(9999, 12, 31), 23, 59, 59)
  {
    var dt := DateTime(Date(9999, 12, 31), 23, 59, 59);
    DaysBeforeYearClosed(9999);
    assert DaysFromCivil(dt.date) == 2932896;
    assert EpochSeconds(dt) == MaxInstant;
    ToDateTimeOfEpochSeconds(dt);
  }

  /** The UTC date-time of an instant, as a `CivilTime`. */
  function CivilOf(t: Instant): (dt: CivilTime)
    ensures EpochSeconds(dt) == t
  {
    InstantYears(t);
    ToDateTime(t)
  }

  /** `Series.dt.floor("H")` on epoch seconds: the start of the hour holding `t`. */
  function HourFloor(t: int): (h: int)
    ensures h % SecondsPerHour == 0 && h <= t < h + SecondsPerHour
  {
    t - t % SecondsPerHour
  }

  /** The floor is the only hour boundary within an hour below `t`. */
  lemma HourFloorUnique(t: int, h: int)
    requires h % SecondsPerHour == 0 && h <= t < h + SecondsPerHour
    ensures h == HourFloor(t)
  {
    var q := h / SecondsPerHour;
    assert h == q * SecondsPerHour;
    assert t == q * SecondsPerHour + (t - h);
  }

  /** Flooring to the hour keeps the date and the hour and clears the rest. */
  lemma HourFloorFields(t: int)
    ensures ToDateTime(HourFloor(t)).date == ToDateTime(t).date
    ensures ToDateTime(HourFloor(t)).hour == ToDateTime(t).hour
    ensures ToDateTime(HourFloor(t)).minute == 0 && ToDateTime(HourFloor(t)).second == 0
  {
    var q, r := t / SecondsPerDay, t % SecondsPerDay;
    var r' := r - r % SecondsPerHour;
    HourFloorSplit(t);
    ToDateTimeParts(q, r);
    ToDateTimeParts(q, r');
  }

  /** Flooring to the hour floors the second of the day, within the day. */
  lemma HourFloorSplit(t: int)
    ensures var q, r := t / SecondsPerDay, t % SecondsPerDay;
            var r' := r - r % SecondsPerHour;
            && t == q * SecondsPerDay + r && HourFloor(t) == q * SecondsPerDay + r'
            && 0 <= r' <= r < SecondsPerDay
            && r' / SecondsPerHour == r / SecondsPerHour && r' % SecondsPerHour / 60 == 0 && r' % 60 == 0
  {
    var r := t % SecondsPerDay;
    assert t % SecondsPerHour == r % SecondsPerHour;
  }

  /** The date-time of day `q`, second `r` of that day. */
  lemma ToDateTimeParts(q: int, r: int)
    requires 0 <= r < SecondsPerDay
    ensures ToDateTime(q * SecondsPerDay + r)
            == DateTime(CivilFromDays(q), r / SecondsPerHour, r % SecondsPerHour / 60, r % 60)
  {
    var t := q * SecondsPerDay + r;
    assert t / SecondsPerDay == q && t % SecondsPerDay == r;
  }

  lemma HourFloorInstant(t: Instant)
    ensures MinInstant <= HourFloor(t) <= MaxInstant
  {
  }
}
