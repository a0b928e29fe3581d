/** Proleptic Gregorian calendar arithmetic standing in for the device's
    `time.mktime` / `time.localtime` pair. The device's time library has no
    time zone, so `localtime(mktime(t))` only normalises `t`: out-of-range
    fields are carried into the higher ones. Here `Mktime` is a linear
    seconds count and `Localtime` gives the one normalised tuple with a
    given count.

    Day counts are computed on years that start on the first of March, so
    that the leap day is the last day of such a year and the months before
    it have fixed lengths. */
module Calendar {

  const SecondsPerDay: int := 86400

  /** Days from 0000-03-01 to 1970-01-01. */
  const EpochShift: int := 719468

  /** Monday is 0, Sunday is 6. 1970-01-01 was a Thursday. */
  const EpochWeekday: int := 3

  predicate IsLeapYear(y: int) {
    y % 4 == 0 && (y % 100 != 0 || y % 400 == 0)
  }

  function DaysInMonth(y: int, m: int): (r: int)
    requires 1 <= m <= 12
    ensures 28 <= r <= 31
  {
    if m == 2 then (if IsLeapYear(y) then 29 else 28)
    else if m == 4 || m == 6 || m == 9 || m == 11 then 30
    else 31
  }

  predicate IsValidDate(y: int, m: int, d: int) {
    1 <= m <= 12 && 1 <= d <= DaysInMonth(y, m)
  }

  // ---------------------------------------------------------------------
  // Day counts

  /** Months since March of year 0; any month number is accepted and
      carried into the year, as `mktime` does. */
  function MonthIndex(y: int, m: int): int {
    12 * y + m - 3
  }

  /** The year, counted from its first of March, that month (y, m) is in. */
  function MarchYear(y: int, m: int): int {
    MonthIndex(y, m) / 12
  }

  /** The month within its March-based year: 0 is March, 11 is February. */
  function MarchMonth(y: int, m: int): int {
    MonthIndex(y, m) % 12
  }

  /** Days from 0000-03-01 to the first of March of year x. */
  function DaysBeforeMarchYear(x: int): int {
    365 * x + x / 4 - x / 100 + x / 400
  }

  /** Days from the first of March to the first of month k of the same
      March-based year (k = 0 for March). */
  function DaysBeforeMarchMonth(k: int): int {
    (153 * k + 2) / 5
  }

  /** Days since 1970-01-01 of (y, m, d); any day number is counted from the
      first of the month, so day 31 of a 30-day month is the next first. */
  function EpochDays(y: int, m: int, d: int): int {
    DaysBeforeMarchYear(MarchYear(y, m)) + DaysBeforeMarchMonth(MarchMonth(y, m))
      + d - 1 - EpochShift
  }

  function WeekdayOfEpochDay(n: int): (r: int)
    ensures 0 <= r <= 6
  {
    (n + EpochWeekday) % 7
  }

  // ---------------------------------------------------------------------
  // Facts about March-based years and months

  lemma QuotientStep(x: int)
    ensures (x + 1) / 4 - x / 4 == if (x + 1) % 4 == 0 then 1 else 0
    ensures (x + 1) / 100 - x / 100 == if (x + 1) % 100 == 0 then 1 else 0
    ensures (x + 1) / 400 - x / 400 == if (x + 1) % 400 == 0 then 1 else 0
  {
  }

  lemma CenturyDivisibility(y: int)
    ensures y % 400 == 0 ==> y % 100 == 0
    ensures y % 100 == 0 ==> y % 4 == 0
  {
  }

  /** The March-based year x ends with February of year x + 1. */
  lemma MarchYearLength(x: int)
    ensures DaysBeforeMarchYear(x + 1) - DaysBeforeMarchYear(x)
         == 337 + DaysInMonth(x + 1, 2)
  {
    QuotientStep(x);
    CenturyDivisibility(x + 1);
  }

  /** 146097 days make 400 years; the floors keep the start of year x within
      a few days of 146097 * x / 400. */
  lemma MarchYearEstimate(x: int)
    ensures 146097 * x - 800 < 400 * DaysBeforeMarchYear(x) < 146097 * x + 400
  {
  }

  lemma MarchYearMonotone(x1: int, x2: int)
    requires x1 < x2
    ensures DaysBeforeMarchYear(x1) < DaysBeforeMarchYear(x2)
  {
    MarchYearEstimate(x1);
    MarchYearEstimate(x2);
  }

  /** The civil month of month k of a March-based year. */
  function CivilMonth(k: int): int
    requires 0 <= k < 12
  {
    if k < 10 then k + 3 else k - 9
  }

  /** Months March to January have the lengths of the civil calendar;
      February starts 337 days into the year. */
  lemma MarchMonthLengths(y: int, k: int)
    requires 0 <= k < 12
    ensures k < 11 ==> DaysBeforeMarchMonth(k + 1) - DaysBeforeMarchMonth(k) == DaysInMonth(y, CivilMonth(k))
    ensures DaysBeforeMarchMonth(k) <= 337 && (k == 11 <==> DaysBeforeMarchMonth(k) == 337)
    ensures 0 <= DaysBeforeMarchMonth(k)
  {
  }

  lemma MarchMonthsInOrder(k1: int, k2: int)
    requires 0 <= k1 < k2 < 12
    ensures DaysBeforeMarchMonth(k1 + 1) <= DaysBeforeMarchMonth(k2)
  {
  }

  /** Where a valid date sits: day `doy` (from 0) of March-based year `x`,
      in its month `k`. */
  lemma DayInMarchYear(y: int, m: int, d: int) returns (x: int, k: int, doy: int)
    requires IsValidDate(y, m, d)
    ensures EpochDays(y, m, d) + EpochShift == DaysBeforeMarchYear(x) + doy
    ensures 12 * x + k == MonthIndex(y, m) && 0 <= k < 12
    ensures doy == DaysBeforeMarchMonth(k) + d - 1
    ensures k < 11 ==> doy < DaysBeforeMarchMonth(k + 1)
    ensures 0 <= doy < DaysBeforeMarchYear(x + 1) - DaysBeforeMarchYear(x)
  {
    x, k := MarchYear(y, m), MarchMonth(y, m);
    doy := DaysBeforeMarchMonth(k) + d - 1;
    assert m == CivilMonth(k) && y == (if k < 10 then x else x + 1);
    MarchMonthLengths(y, k);
    MarchYearLength(x);
    if k < 11 { MarchMonthsInOrder(k, 11); }
  }

  // ---------------------------------------------------------------------
  // Distinct valid dates have distinct day counts

  lemma MarchYearUnique(x1: int, x2: int, a: int)
    requires DaysBeforeMarchYear(x1) <= a < DaysBeforeMarchYear(x1 + 1)
    requires DaysBeforeMarchYear(x2) <= a < DaysBeforeMarchYear(x2 + 1)
    ensures x1 == x2
  {
    if x1 + 1 < x2 {
      MarchYearMonotone(x1 + 1, x2);
    } else if x2 + 1 < x1 {
      MarchYearMonotone(x2 + 1, x1);
    }
  }

  lemma MarchMonthUnique(k1: int, k2: int, doy: int)
    requires 0 <= k1 < 12 && 0 <= k2 < 12
    requires DaysBeforeMarchMonth(k1) <= doy && (k1 < 11 ==> doy < DaysBeforeMarchMonth(k1 + 1))
    requires DaysBeforeMarchMonth(k2) <= doy && (k2 < 11 ==> doy < DaysBeforeMarchMonth(k2 + 1))
    ensures k1 == k2
  {
    if k1 < k2 {
      MarchMonthsInOrder(k1, k2);
    } else if k2 < k1 {
      MarchMonthsInOrder(k2, k1);
    }
  }

  // ---------------------------------------------------------------------
  // From a day count back to a civil date

  /** March-based year x holds the day `a` days after 0000-03-01. */
  predicate MarchYearHolds(x: int, a: int) {
    DaysBeforeMarchYear(x) <= a < DaysBeforeMarchYear(x + 1)
  }

  /** One of three consecutive years around 400 * a / 146097 holds day `a`,
      and only one year does. */
  lemma MarchYearExists(a: int)
    ensures exists x :: MarchYearHolds(x, a)
    ensures forall x1, x2 {:trigger MarchYearHolds(x1, a), MarchYearHolds(x2, a)} ::
      MarchYearHolds(x1, a) && MarchYearHolds(x2, a) ==> x1 == x2
  {
    var x0 := (400 * a) / 146097;
    MarchYearEstimate(x0 - 1);
    MarchYearEstimate(x0 + 2);
    var x := if a < DaysBeforeMarchYear(x0) then x0 - 1
             else if a < DaysBeforeMarchYear(x0 + 1) then x0
             else x0 + 1;
    assert MarchYearHolds(x, a);
    forall x1, x2 | MarchYearHolds(x1, a) && MarchYearHolds(x2, a)
      ensures x1 == x2
    {
      MarchYearUnique(x1, x2, a);
    }
  }

  function MarchYearOf(a: int): (x: int)
    ensures MarchYearHolds(x, a)
  {
    MarchYearExists(a);
    var x :| MarchYearHolds(x, a);
    x
  }

  /** Month `k` of a March-based year holds its day `doy` (from 0). */
  predicate MarchMonthHolds(k: int, doy: int) {
    0 <= k < 12 && DaysBeforeMarchMonth(k) <= doy && (k < 11 ==> doy < DaysBeforeMarchMonth(k + 1))
  }

  lemma MarchMonthExists(doy: int)
    requires 0 <= doy
    ensures exists k :: MarchMonthHolds(k, doy)
    ensures forall k1, k2 {:trigger MarchMonthHolds(k1, doy), MarchMonthHolds(k2, doy)} ::
      MarchMonthHolds(k1, doy) && MarchMonthHolds(k2, doy) ==> k1 == k2
  {
    var k :=
      if doy < 31 then 0 else if doy < 61 then 1 else if doy < 92 then 2
      else if doy < 122 then 3 else if doy < 153 then 4 else if doy < 184 then 5
      else if doy < 214 then 6 else if doy < 245 then 7 else if doy < 275 then 8
      else if doy < 306 then 9 else if doy < 337 then 10 else 11;
    assert MarchMonthHolds(k, doy);
    forall k1, k2 | MarchMonthHolds(k1, doy) && MarchMonthHolds(k2, doy)
      ensures k1 == k2
    {
      MarchMonthUnique(k1, k2, doy);
    }
  }

  /** The month of day `doy` (from 0) of a March-based year. */
  function MarchMonthOf(doy: int): (k: int)
    requires 0 <= doy
    ensures MarchMonthHolds(k, doy)
  {
    MarchMonthExists(doy);
    var k :| MarchMonthHolds(k, doy);
    k
  }

  datatype Date = Date(year: int, month: int, day: int)

  /** Day `doy` of month `k` of March-based year `x` as a civil date. */
  lemma DateOfCoordinates(x: int, k: int, doy: int)
    requires MarchMonthHolds(k, doy)
    requires doy < DaysBeforeMarchYear(x + 1) - DaysBeforeMarchYear(x)
    ensures var y := if k < 10 then x else x + 1;
      && IsValidDate(y, CivilMonth(k), doy - DaysBeforeMarchMonth(k) + 1)
      && EpochDays(y, CivilMonth(k), doy - DaysBeforeMarchMonth(k) + 1) + EpochShift
         == DaysBeforeMarchYear(x) + doy
  {
    var y := if k < 10 then x else x + 1;
    MarchYearLength(x);
    MarchMonthLengths(y, k);
    assert MonthIndex(y, CivilMonth(k)) == 12 * x + k;
    assert MarchYear(y, CivilMonth(k)) == x && MarchMonth(y, CivilMonth(k)) == k;
  }

  /** The civil date of day `n` since 1970-01-01. */
  function CivilFromDays(n: int): (r: Date)
    ensures IsValidDate(r.year, r.month, r.day)
    ensures EpochDays(r.year, r.month, r.day) == n
  {
    var a := n + EpochShift;
    var x := MarchYearOf(a);
    var doy := a - DaysBeforeMarchYear(x);
    var k := MarchMonthOf(doy);
    DateOfCoordinates(x, k, doy);
    Date(if k < 10 then x else x + 1, CivilMonth(k), doy - DaysBeforeMarchMonth(k) + 1)
  }

  // ---------------------------------------------------------------------
  // Time tuples

  /** The six fields of `struct_time` that `mktime` reads. */
  datatype TimeTuple = TimeTuple(
    year: int, month: int, day: int,
    hour: int, minute: int, second: int)
  {
    /** `tm_wday` of the normalised tuple: 0 for Monday to 6 for Sunday. */
    function Wday(): int {
      WeekdayOfEpochDay(EpochDays(year, month, day))
    }
  }

  /** What `localtime` produces: every field in range. */
  predicate Normalized(t: TimeTuple) {
    && IsValidDate(t.year, t.month, t.day)
    && 0 <= t.hour < 24 && 0 <= t.minute < 60 && 0 <= t.second < 60
  }

  /** `time.mktime`: seconds since 1970-01-01 00:00:00, fields out of range
      included. */
  function Mktime(t: TimeTuple): int {
    EpochDays(t.year, t.month, t.day) * SecondsPerDay
      + t.hour * 3600 + t.minute * 60 + t.second
  }

  lemma ClockSplit(rem: int)
    requires 0 <= rem < SecondsPerDay
    ensures 0 <= rem / 3600 < 24 && 0 <= rem % 3600 / 60 < 60 && 0 <= rem % 60 < 60
    ensures (rem / 3600) * 3600 + (rem % 3600 / 60) * 60 + rem % 60 == rem
  {
  }

  lemma DaySplit(s: int)
    ensures s / SecondsPerDay * SecondsPerDay + s % SecondsPerDay == s
    ensures 0 <= s % SecondsPerDay < SecondsPerDay
  {
  }

  lemma ClockJoin(e: int, h: int, mi: int, sec: int)
    requires 0 <= h < 24 && 0 <= mi < 60 && 0 <= sec < 60
    ensures (e * SecondsPerDay + h * 3600 + mi * 60 + sec) / SecondsPerDay == e
    ensures (e * SecondsPerDay + h * 3600 + mi * 60 + sec) % SecondsPerDay == h * 3600 + mi * 60 + sec
    ensures (h * 3600 + mi * 60 + sec) / 3600 == h
    ensures (h * 3600 + mi * 60 + sec) % 3600 / 60 == mi
    ensures (h * 3600 + mi * 60 + sec) % 60 == sec
  {
  }

  /** A normalised tuple's seconds count splits into its day count and its
      time of day. */
  lemma MktimeSplit(t: TimeTuple)
    requires Normalized(t)
    ensures Mktime(t) / SecondsPerDay == EpochDays(t.year, t.month, t.day)
    ensures Mktime(t) % SecondsPerDay == t.hour * 3600 + t.minute * 60 + t.second
  {
    ClockJoin(EpochDays(t.year, t.month, t.day), t.hour, t.minute, t.second);
  }

  /** Distinct normalised tuples denote distinct instants. */
  lemma MktimeInjective(t1: TimeTuple, t2: TimeTuple)
    requires Normalized(t1) && Normalized(t2)
    requires Mktime(t1) == Mktime(t2)
    ensures t1 == t2
  {
    MktimeSplit(t1);
    MktimeSplit(t2);
    ClockJoin(0, t1.hour, t1.minute, t1.second);
    ClockJoin(0, t2.hour, t2.minute, t2.second);
    EpochDaysInjective(t1.year, t1.month, t1.day, t2.year, t2.month, t2.day);
  }

  /** Every seconds count has exactly one normalised tuple: the date of its
      day count and the time of day of its remainder. */
  lemma LocaltimeExists(s: int)
    ensures exists t :: Normalized(t) && Mktime(t) == s
    ensures forall t1, t2 {:trigger Mktime(t1), Mktime(t2)} ::
      Normalized(t1) && Mktime(t1) == s && Normalized(t2) && Mktime(t2) == s ==> t1 == t2
  {
    var days := s / SecondsPerDay;
    var rem := s % SecondsPerDay;
    DaySplit(s);
    ClockSplit(rem);
    var date := CivilFromDays(days);
    var t := TimeTuple(date.year, date.month, date.day, rem / 3600, rem % 3600 / 60, rem % 60);
    assert Normalized(t) && Mktime(t) == s;
    forall t1, t2 | Normalized(t1) && Mktime(t1) == s && Normalized(t2) && Mktime(t2) == s
      ensures t1 == t2
    {
      MktimeInjective(t1, t2);
    }
  }

  /** `time.localtime`: the normalised tuple of a seconds count. */
  function Localtime(s: int): (t: TimeTuple)
    ensures Normalized(t)
    ensures Mktime(t) == s
  {
    LocaltimeExists(s);
    var t :| Normalized(t) && Mktime(t) == s;
    t
  }

  /** `localtime(mktime(t))` is the identity on normalised tuples. */
  lemma LocaltimeOfMktime(t: TimeTuple)
    requires Normalized(t)
    ensures Localtime(Mktime(t)) == t
  {
    MktimeInjective(Localtime(Mktime(t)), t);
  }

  // ---------------------------------------------------------------------
  // Tuple order

  /** Python's `<` on time tuples: lexicographic over the fields in order.
      The trailing `tm_wday`, `tm_yday` and `tm_isdst` fields of two
      normalised tuples are equal whenever the first six are, so they never
      decide a comparison and are left out. */
  predicate Before(a: TimeTuple, b: TimeTuple) {
    a.year < b.year || (a.year == b.year &&
    (a.month < b.month || (a.month == b.month &&
    (a.day < b.day || (a.day == b.day &&
    (a.hour < b.hour || (a.hour == b.hour &&
    (a.minute < b.minute || (a.minute == b.minute &&
    a.second < b.second)))))))))
  }

  /** Python's `<=` on time tuples. */
  predicate AtOrBefore(a: TimeTuple, b: TimeTuple) {
    Before(a, b) || a == b
  }

  lemma LaterMarchYear(x1: int, doy1: int, x2: int, doy2: int)
    requires x1 < x2
    requires 0 <= doy1 < DaysBeforeMarchYear(x1 + 1) - DaysBeforeMarchYear(x1)
    requires 0 <= doy2
    ensures DaysBeforeMarchYear(x1) + doy1 < DaysBeforeMarchYear(x2) + doy2
  {
    if x1 + 1 < x2 { MarchYearMonotone(x1 + 1, x2); }
  }

  /** Valid dates in calendar order have increasing day counts. */
  lemma EarlierDate(y1: int, m1: int, d1: int, y2: int, m2: int, d2: int)
    requires IsValidDate(y1, m1, d1) && IsValidDate(y2, m2, d2)
    requires y1 < y2 || (y1 == y2 && m1 < m2)
    ensures EpochDays(y1, m1, d1) < EpochDays(y2, m2, d2)
  {
    var x1, k1, doy1 := DayInMarchYear(y1, m1, d1);
    var x2, k2, doy2 := DayInMarchYear(y2, m2, d2);
    assert 12 * x1 + k1 < 12 * x2 + k2;
    if x1 < x2 {
      LaterMarchYear(x1, doy1, x2, doy2);
    } else {
      assert x1 == x2 && k1 < k2;
      MarchMonthsInOrder(k1, k2);
      assert doy1 < doy2;
    }
  }

  /** Distinct valid dates have distinct day counts. */
  lemma EpochDaysInjective(y1: int, m1: int, d1: int, y2: int, m2: int, d2: int)
    requires IsValidDate(y1, m1, d1) && IsValidDate(y2, m2, d2)
    requires EpochDays(y1, m1, d1) == EpochDays(y2, m2, d2)
    ensures y1 == y2 && m1 == m2 && d1 == d2
  {
    if y1 < y2 || (y1 == y2 && m1 < m2) {
      EarlierDate(y1, m1, d1, y2, m2, d2);
    } else if y2 < y1 || (y1 == y2 && m2 < m1) {
      EarlierDate(y2, m2, d2, y1, m1, d1);
    }
  }

  /** On normalised tuples the tuple order is the order of the instants. */
  lemma BeforeIsEarlier(a: TimeTuple, b: TimeTuple)
    requires Normalized(a) && Normalized(b)
    ensures Before(a, b) <==> Mktime(a) < Mktime(b)
    ensures a == b <==> Mktime(a) == Mktime(b)
  {
    if a.year < b.year || (a.year == b.year && a.month < b.month) {
      EarlierDate(a.year, a.month, a.day, b.year, b.month, b.day);
    } else if b.year < a.year || (b.year == a.year && b.month < a.month) {
      EarlierDate(b.year, b.month, b.day, a.year, a.month, a.day);
    }
    if Mktime(a) == Mktime(b) {
      MktimeInjective(a, b);
    }
  }

  /** On normalised tuples Python's `<=` is "no later than". */
  lemma AtOrBeforeIsNoLater(a: TimeTuple, b: TimeTuple)
    requires Normalized(a) && Normalized(b)
    ensures AtOrBefore(a, b) <==> Mktime(a) <= Mktime(b)
  {
    BeforeIsEarlier(a, b);
  }

  // ---------------------------------------------------------------------
  // adjust_utc_time and weekday

  lemma MktimeHourShift(t: TimeTuple, k: int)
    ensures Mktime(t.(hour := t.hour + k)) == Mktime(t) + k * 3600
  {
  }

  /** `adjust_utc_time`: add `offset` hours to the hour field and normalise.
      The result is a normalised tuple exactly `offset` hours after `utc`. */
  function AdjustUtcTime(utc: TimeTuple, offset: int): (r: TimeTuple)
    ensures Normalized(r)
    ensures Mktime(r) == Mktime(utc) + offset * 3600
  {
    MktimeHourShift(utc, offset);
    Localtime(Mktime(utc.(hour := utc.hour + offset)))
  }

  /** Shifting by `offset` and then by `-offset` gives back the normalised
      original; a normalised original comes back unchanged. */
  lemma AdjustRoundTrip(utc: TimeTuple, offset: int)
    ensures AdjustUtcTime(AdjustUtcTime(utc, offset), -offset) == Localtime(Mktime(utc))
    ensures Normalized(utc) ==> AdjustUtcTime(AdjustUtcTime(utc, offset), -offset) == utc
  {
    var shifted := AdjustUtcTime(utc, offset);
    MktimeHourShift(shifted, -offset);
    if Normalized(utc) {
      LocaltimeOfMktime(utc);
    }
  }

  /** 2025-01-01 00:00 UTC shifted by -8 hours is 2024-12-31 16:00. */
  lemma AdjustAcrossNewYear()
    ensures AdjustUtcTime(TimeTuple(2025, 1, 1, 0, 0, 0), -8) == TimeTuple(2024, 12, 31, 16, 0, 0)
  {
    var expected := TimeTuple(2024, 12, 31, 16, 0, 0);
    assert MarchYear(2024, 12) == 2024 && MarchMonth(2024, 12) == 9;
    assert MarchYear(2025, 1) == 2024 && MarchMonth(2025, 1) == 10;
    assert DaysBeforeMarchYear(2024) == 739251;
    assert EpochDays(2024, 12, 31) == 20088 && EpochDays(2025, 1, 1) == 20089;
    assert Mktime(expected) == Mktime(TimeTuple(2025, 1, 1, 0, 0, 0)) - 8 * 3600;
    LocaltimeOfMktime(expected);
  }

  /** `weekday`: 0 for Monday to 6 for Sunday, counted from the Thursday
      1970-01-01. `WeekdayIsLocaltime` shows it is the `tm_wday` of the
      normalised midnight of (y, m, d), which is how the source finds it. */
  function Weekday(y: int, m: int, d: int): (r: int)
    ensures 0 <= r <= 6
  {
    WeekdayOfEpochDay(EpochDays(y, m, d))
  }

  lemma WeekdayIsLocaltime(y: int, m: int, d: int)
    ensures Weekday(y, m, d) == Localtime(Mktime(TimeTuple(y, m, d, 0, 0, 0))).Wday()
  {
    var t := Localtime(Mktime(TimeTuple(y, m, d, 0, 0, 0)));
    MktimeSplit(t);
    ClockJoin(EpochDays(y, m, d), 0, 0, 0);
  }

  lemma WeekShift(a: int, j: int)
    ensures WeekdayOfEpochDay(a + j) == (WeekdayOfEpochDay(a) + j) % 7
  {
  }

  /** Days `j` apart in the same (possibly overflowing) month are `j`
      weekdays apart modulo 7. */
  lemma WeekdayShift(y: int, m: int, d: int, j: int)
    ensures Weekday(y, m, d + j) == (Weekday(y, m, d) + j) % 7
  {
    WeekShift(EpochDays(y, m, d), j);
  }

  /** The month after (y, m): its month index is one more. */
  function NextMonth(y: int, m: int): (r: (int, int))
    requires 1 <= m <= 12
    ensures MonthIndex(r.0, r.1) == MonthIndex(y, m) + 1
  {
    if m < 12 then (y, m + 1) else (y + 1, 1)
  }

  /** The day count just past the end of a month is that of the first of
      the next month. */
  lemma MonthEndCarry(y: int, m: int)
    requires 1 <= m <= 12
    ensures var (ny, nm) := NextMonth(y, m);
      EpochDays(y, m, DaysInMonth(y, m) + 1) == EpochDays(ny, nm, 1)
  {
    var (ny, nm) := NextMonth(y, m);
    var x, k := MarchYear(y, m), MarchMonth(y, m);
    assert 12 * x + k == 12 * y + m - 3 && 0 <= k < 12;
    if k == 11 {
      assert y == x + 1 && m == 2;
      MarchYearLength(x);
      assert MarchYear(ny, nm) == x + 1 && MarchMonth(ny, nm) == 0;
    } else {
      assert m == CivilMonth(k);
      MarchMonthLengths(y, k);
      assert MarchYear(ny, nm) == x && MarchMonth(ny, nm) == k + 1;
    }
  }

  /** The day after the last day of a month normalises to the first of the
      next month (or of the next year), one weekday later: consecutive
      calendar days have consecutive weekdays across month and year ends. */
  lemma DayAfterMonthEnd(y: int, m: int)
    requires 1 <= m <= 12
    ensures var (ny, nm) := NextMonth(y, m);
      && Localtime(Mktime(TimeTuple(y, m, DaysInMonth(y, m) + 1, 0, 0, 0))) == TimeTuple(ny, nm, 1, 0, 0, 0)
      && Weekday(ny, nm, 1) == (Weekday(y, m, DaysInMonth(y, m)) + 1) % 7
  {
    var (ny, nm) := NextMonth(y, m);
    var last := DaysInMonth(y, m);
    MonthEndCarry(y, m);
    assert Mktime(TimeTuple(y, m, last + 1, 0, 0, 0)) == Mktime(TimeTuple(ny, nm, 1, 0, 0, 0));
    LocaltimeOfMktime(TimeTuple(ny, nm, 1, 0, 0, 0));
    WeekdayShift(y, m, last, 1);
  }

  lemma SecondSundayOfMarch2025()
    ensures Weekday(2025, 3, 9) == 6
  {
    assert MarchYear(2025, 3) == 2025 && MarchMonth(2025, 3) == 0;
    assert DaysBeforeMarchYear(2025) == 739616;
    assert EpochDays(2025, 3, 9) == 20156;
  }
}
