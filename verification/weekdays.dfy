/** `nth_weekday`: the day of the month on which a weekday occurs for the
    n-th time. The source scans days 1 to 31, asking `weekday` (which
    normalises through `mktime`) for each; here the scan is a method and the
    answer it must give is a closed-form function. */
module Weekdays {
  import opened Wrappers
  import opened Calendar

  /** How many of the days 1..k of month (y, m) fall on weekday w. Days past
      the end of the month are counted as the days they normalise to, as the
      scan sees them. */
  function CountWeekday(y: int, m: int, w: int, k: nat): nat {
    if k == 0 then 0
    else CountWeekday(y, m, w, k - 1) + (if Weekday(y, m, k) == w then 1 else 0)
  }

  // Arithmetic on days modulo a week, kept apart from the calendar terms.

  lemma ModWeekFirst(a: int, w: int)
    requires 0 <= a <= 6 && 0 <= w <= 6
    ensures 0 <= (w - a) % 7 <= 6 && (a + (w - a) % 7) % 7 == w
  {
    if w < a {
      assert (w - a) % 7 == w - a + 7;
    }
  }

  lemma ModWeekMatch(w: int, x: int)
    requires 0 <= w <= 6
    ensures (w + x) % 7 == w <==> x % 7 == 0
  {
    var q, r := x / 7, x % 7;
    assert x == 7 * q + r && 0 <= r < 7;
    assert w + x == 7 * q + (w + r);
    if w + r < 7 {
      assert (w + x) % 7 == w + r;
    } else {
      assert w + x == 7 * (q + 1) + (w + r - 7);
      assert (w + x) % 7 == w + r - 7;
    }
  }

  lemma WeeksStep(x: int)
    requires x >= 1
    ensures x / 7 == (x - 1) / 7 + (if x % 7 == 0 then 1 else 0)
  {
    var q, r := (x - 1) / 7, (x - 1) % 7;
    assert x - 1 == 7 * q + r && 0 <= r < 7;
    if r == 6 {
      assert x == 7 * (q + 1);
    } else {
      assert x == 7 * q + (r + 1);
    }
  }

  /** One step of the count: day k adds one exactly when it is a whole
      number of weeks past the first occurrence f. */
  lemma CountStep(before: int, k: int, f: int, hit: bool)
    requires k >= 1
    requires before == if k - 1 < f then 0 else (k - 1 - f) / 7 + 1
    requires hit <==> (k - f) % 7 == 0
    requires 1 <= f <= 7
    ensures before + (if hit then 1 else 0) == if k < f then 0 else (k - f) / 7 + 1
  {
    if k > f {
      WeeksStep(k - f);
    } else if k < f {
      assert (k - f) % 7 != 0;
    } else {
      assert (k - f) % 7 == 0;
    }
  }

  lemma WholeWeeks(x: int, n: int)
    requires x == 7 * n
    ensures x % 7 == 0 && x / 7 == n
  {
  }

  /** The first day of the month that falls on weekday w (for 0 <= w <= 6). */
  function FirstOccurrence(y: int, m: int, w: int): (d: int)
    ensures 1 <= d <= 7
    ensures 0 <= w <= 6 ==> Weekday(y, m, d) == w
  {
    var w1 := Weekday(y, m, 1);
    WeekdayShift(y, m, 1, (w - w1) % 7);
    if 0 <= w <= 6 then ModWeekFirst(w1, w); 1 + (w - w1) % 7
    else 1 + (w - w1) % 7
  }

  /** Day d falls on weekday w exactly when it is a whole number of weeks
      from the first such day. */
  lemma MatchesFirstOccurrence(y: int, m: int, w: int, d: int)
    requires 0 <= w <= 6
    ensures Weekday(y, m, d) == w <==> (d - FirstOccurrence(y, m, w)) % 7 == 0
  {
    var f := FirstOccurrence(y, m, w);
    WeekdayShift(y, m, f, d - f);
    ModWeekMatch(w, d - f);
  }

  /** The count of matching days among 1..k, in closed form: none before the
      first occurrence, then one more every seven days. */
  lemma {:induction false} CountClosedForm(y: int, m: int, w: int, k: nat)
    requires 0 <= w <= 6
    ensures var f := FirstOccurrence(y, m, w);
      CountWeekday(y, m, w, k) == if k < f then 0 else (k - f) / 7 + 1
  {
    var f := FirstOccurrence(y, m, w);
    if k > 0 {
      CountClosedForm(y, m, w, k - 1);
      MatchesFirstOccurrence(y, m, w, k);
      CountStep(CountWeekday(y, m, w, k - 1), k, f, Weekday(y, m, k) == w);
    }
  }

  /** What `nth_weekday` answers when the scan stops at day `last`: the n-th
      day (counting from 1) on weekday w, or None when there is no such day
      up to `last`. */
  function NthWeekdayUpTo(y: int, m: int, w: int, n: int, last: int): (r: Option<int>)
    ensures r.Some? ==> 0 <= w <= 6 && 1 <= n
    ensures r.Some? ==> 7 * (n - 1) < r.value <= 7 * n && r.value <= last
    ensures r.Some? ==> Weekday(y, m, r.value) == w
    ensures 0 <= w <= 6 && 1 <= n && 7 * n <= last ==> r.Some?
  {
    var d := FirstOccurrence(y, m, w) + 7 * (n - 1);
    if 0 <= w <= 6 && 1 <= n && d <= last then
      WeekdayShift(y, m, FirstOccurrence(y, m, w), 7 * (n - 1));
      WholeWeeks(7 * (n - 1), n - 1);
      ModWeekMatch(w, 7 * (n - 1));
      Some(d)
    else None
  }

  /** A found day is the n-th match: n - 1 matches come before it. No day is
      found exactly when fewer than n days up to `last` match. */
  lemma NthWeekdayIsNth(y: int, m: int, w: int, n: int, last: nat)
    requires 0 <= w <= 6 && 1 <= n
    ensures var r := NthWeekdayUpTo(y, m, w, n, last);
      && (r.Some? ==> r.value >= 1 && CountWeekday(y, m, w, r.value - 1) == n - 1
                        && CountWeekday(y, m, w, r.value) == n)
      && (r.None? <==> CountWeekday(y, m, w, last) < n)
  {
    var f := FirstOccurrence(y, m, w);
    var r := NthWeekdayUpTo(y, m, w, n, last);
    CountClosedForm(y, m, w, last);
    if r.Some? {
      var d := r.value;
      CountClosedForm(y, m, w, d - 1);
      CountClosedForm(y, m, w, d);
      assert d - f == 7 * (n - 1);
      if n > 1 {
        assert (d - 1 - f) / 7 == n - 2;
      }
      assert (last - f) / 7 >= n - 1;
    } else if last >= f {
      assert f + 7 * (n - 1) > last;
      assert (last - f) / 7 < n - 1;
    }
  }

  /** The n-th match is the only day on weekday w preceded by n - 1 matches. */
  lemma NthWeekdayUnique(y: int, m: int, w: int, n: int, d: nat, last: int)
    requires 0 <= w <= 6 && 1 <= d <= last
    requires Weekday(y, m, d) == w && CountWeekday(y, m, w, d) == n
    ensures NthWeekdayUpTo(y, m, w, n, last) == Some(d)
  {
    var f := FirstOccurrence(y, m, w);
    MatchesFirstOccurrence(y, m, w, d);
    CountClosedForm(y, m, w, d);
    assert d >= f;
    assert d - f == 7 * ((d - f) / 7);
  }

  /** `nth_weekday` as written: scan days 1 to 31, count the days on the
      target weekday and answer the day the count reaches n. The source's
      `except: break` never fires, because `weekday` normalises every day
      number, so day 31 of a 30-day month counts as the first of the next. */
  method NthWeekday(year: int, month: int, target: int, n: int) returns (r: Option<int>)
    ensures r == NthWeekdayUpTo(year, month, target, n, 31)
  {
    var count: nat := 0;
    for day := 1 to 32
      invariant count == CountWeekday(year, month, target, day - 1)
      invariant 1 <= n ==> count < n
    {
      if Weekday(year, month, day) == target {
        count := count + 1;
        if count == n {
          NthWeekdayUnique(year, month, target, n, day, 31);
          return Some(day);
        }
      }
    }
    if 0 <= target <= 6 && 1 <= n {
      NthWeekdayIsNth(year, month, target, n, 31);
    }
    return None;
  }

  /** `nth_weekday` as evidently intended: the n-th occurrence within the
      month itself, or None. */
  function NthWeekdayInMonth(year: int, month: int, w: int, n: int): (r: Option<int>)
    ensures r.Some? ==> IsValidDate(year, month, r.value) && Weekday(year, month, r.value) == w
    ensures 1 <= month <= 12 ==> r == NthWeekdayUpTo(year, month, w, n, DaysInMonth(year, month))
    ensures !(1 <= month <= 12) ==> r.None?
  {
    if 1 <= month <= 12 then NthWeekdayUpTo(year, month, w, n, DaysInMonth(year, month))
    else None
  }

  /** For the first to fourth occurrence the scan never runs past the month,
      so the source's answer is the intended one, and it always exists. */
  lemma ScanAgreesUpToFourth(year: int, month: int, w: int, n: int)
    requires 1 <= month <= 12 && 0 <= w <= 6 && 1 <= n <= 4
    ensures NthWeekdayUpTo(year, month, w, n, 31) == NthWeekdayInMonth(year, month, w, n)
    ensures NthWeekdayInMonth(year, month, w, n).Some?
    ensures NthWeekdayInMonth(year, month, w, n).value <= 28
  {
  }

  /** April 2025 has four Thursdays. Asked for the fifth, the scan answers
      31: day 31 of April normalises to Thursday 1 May. The intended answer
      is None. */
  lemma FifthThursdayOfApril2025()
    ensures NthWeekdayUpTo(2025, 4, 3, 5, 31) == Some(31)
    ensures !IsValidDate(2025, 4, 31)
    ensures Localtime(Mktime(TimeTuple(2025, 4, 31, 0, 0, 0))) == TimeTuple(2025, 5, 1, 0, 0, 0)
    ensures NthWeekdayInMonth(2025, 4, 3, 5) == None
  {
    assert MarchYear(2025, 4) == 2025 && MarchMonth(2025, 4) == 1;
    assert DaysBeforeMarchYear(2025) == 739616;
    assert EpochDays(2025, 4, 1) == 20179;
    assert Weekday(2025, 4, 1) == 1;
    assert FirstOccurrence(2025, 4, 3) == 3;
    DayAfterMonthEnd(2025, 4);
  }
}
