/** Daylight saving time: the US rule computed for a year
    (`get_dynamic_dst_bounds`), fixed "MM-DD HH:MM" bounds read from the
    settings (`parse_static_dst_time`), and the decision whether an instant
    falls in the DST period of its local year (`is_dst`). */
module Dst {
  import opened Wrappers
  import opened Calendar
  import opened Weekdays
  import opened Text

  /** The settings the time code reads; every one comes from the settings
      file, with the defaults of `DefaultConfig`. */
  datatype Config = Config(
    ntpOffset: int,      // hours added to UTC for local standard time
    dstEnabled: bool,
    dstMode: string,     // "dynamic" (any case) for the US rule, else static
    dstOffset: int,      // hours added during DST
    dstStart: string,    // "MM-DD HH:MM", static mode only
    dstEnd: string)

  const DefaultConfig: Config :=
    Config(-8, false, "dynamic", 1, "03-14 02:00", "11-07 02:00")

  /** The Python exceptions the time code can raise. */
  datatype Error = ValueError | NameError

  const Sunday: int := 6

  // ---------------------------------------------------------------------
  // get_dynamic_dst_bounds

  /** US rule: DST runs from 02:00 on the second Sunday of March to 02:00
      on the first Sunday of November, both normalised through
      `localtime(mktime(...))`. The occurrences are taken from
      `NthWeekdayInMonth`, which `ScanAgreesUpToFourth` shows is what the
      source's scan answers for a second and a first occurrence. */
  function DynamicDstBounds(year: int): (r: (TimeTuple, TimeTuple))
    ensures Normalized(r.0) && Normalized(r.1)
    ensures r.0.year == year && r.0.month == 3 && 8 <= r.0.day <= 14
    ensures r.1.year == year && r.1.month == 11 && 1 <= r.1.day <= 7
    ensures r.0.Wday() == Sunday && r.1.Wday() == Sunday
    ensures r.0.hour == 2 && r.0.minute == 0 && r.0.second == 0
    ensures r.1.hour == 2 && r.1.minute == 0 && r.1.second == 0
    ensures Before(r.0, r.1)
  {
    var startDay := NthWeekdayInMonth(year, 3, Sunday, 2).value;
    var endDay := NthWeekdayInMonth(year, 11, Sunday, 1).value;
    var start := TimeTuple(year, 3, startDay, 2, 0, 0);
    var end := TimeTuple(year, 11, endDay, 2, 0, 0);
    LocaltimeOfMktime(start);
    LocaltimeOfMktime(end);
    (Localtime(Mktime(start)), Localtime(Mktime(end)))
  }

  lemma FirstsOfMarchAndNovember2025()
    ensures Weekday(2025, 3, 1) == 5 && Weekday(2025, 11, 1) == 5
  {
    assert MarchYear(2025, 3) == 2025 && MarchMonth(2025, 3) == 0;
    assert MarchYear(2025, 11) == 2025 && MarchMonth(2025, 11) == 8;
    assert DaysBeforeMarchYear(2025) == 739616;
    assert EpochDays(2025, 3, 1) == 20148 && EpochDays(2025, 11, 1) == 20393;
  }

  /** In 2025 DST ran from 9 March to 2 November. */
  lemma DynamicDstBounds2025()
    ensures DynamicDstBounds(2025) == (TimeTuple(2025, 3, 9, 2, 0, 0), TimeTuple(2025, 11, 2, 2, 0, 0))
  {
    FirstsOfMarchAndNovember2025();
    assert FirstOccurrence(2025, 3, Sunday) == 2 && FirstOccurrence(2025, 11, Sunday) == 2;
  }

  // ---------------------------------------------------------------------
  // parse_static_dst_time

  /** `parse_static_dst_time`: split "MM-DD HH:MM" at the one space, the
      date at the one '-' and the clock at the one ':', and read the four
      numbers with `int`. Any other shape, or a number `int` refuses, is a
      `ValueError`. The fields are not range-checked here. */
  function ParseStaticDstTime(s: string, year: int): (r: Result<TimeTuple, Error>)
    ensures r.Ok? ==> r.value.year == year && r.value.second == 0
    ensures r.Err? ==> r.error == ValueError
  {
    var halves := Split(s, ' ');
    if |halves| != 2 then Err(ValueError)
    else
      var monthDay := Split(halves[0], '-');
      var hourMinute := Split(halves[1], ':');
      if |monthDay| != 2 || |hourMinute| != 2 then Err(ValueError)
      else
        match (ParseInt(monthDay[0]), ParseInt(monthDay[1]), ParseInt(hourMinute[0]), ParseInt(hourMinute[1]))
        case (Some(month), Some(day), Some(hour), Some(minute)) =>
          Ok(TimeTuple(year, month, day, hour, minute, 0))
        case _ => Err(ValueError)
  }

  /** The settings' way of writing a static bound. */
  function FormatStaticDstTime(month: int, day: int, hour: int, minute: int): string {
    Pad2(month) + "-" + Pad2(day) + " " + Pad2(hour) + ":" + Pad2(minute)
  }

  /** A bound written as "MM-DD HH:MM" reads back as the same four fields,
      seconds zero. */
  lemma ParseStaticDstTimeRoundTrip(month: nat, day: nat, hour: nat, minute: nat, year: int)
    ensures ParseStaticDstTime(FormatStaticDstTime(month, day, hour, minute), year)
         == Ok(TimeTuple(year, month, day, hour, minute, 0))
  {
    var date, clock := FormattedPieces(month, day, hour, minute);
    var halves := Split(FormatStaticDstTime(month, day, hour, minute), ' ');
    assert halves[0] == date && halves[1] == clock;
    ParseIntPad2(month);
    ParseIntPad2(day);
    ParseIntPad2(hour);
    ParseIntPad2(minute);
  }

  /** How a formatted bound splits: at the space into date and clock, and
      these at '-' and ':' into the four paddings. */
  lemma FormattedPieces(month: nat, day: nat, hour: nat, minute: nat) returns (date: string, clock: string)
    ensures Split(FormatStaticDstTime(month, day, hour, minute), ' ') == [date, clock]
    ensures Split(date, '-') == [Pad2(month), Pad2(day)]
    ensures Split(clock, ':') == [Pad2(hour), Pad2(minute)]
  {
    date := PaddedPair(month, day, '-');
    clock := PaddedPair(hour, minute, ':');
    assert FormatStaticDstTime(month, day, hour, minute) == date + [' '] + clock;
    SplitTwo(date, clock, ' ');
  }

  /** Two padded numbers joined by a separator that is not a digit split
      back into the two paddings; the result holds no space. */
  lemma PaddedPair(a: nat, b: nat, sep: char) returns (s: string)
    requires !IsDigit(sep) && sep != ' '
    ensures s == Pad2(a) + [sep] + Pad2(b)
    ensures Split(s, sep) == [Pad2(a), Pad2(b)]
    ensures ' ' !in s
  {
    s := Pad2(a) + [sep] + Pad2(b);
    DigitsExclude(Pad2(a), sep);
    DigitsExclude(Pad2(b), sep);
    DigitsExclude(Pad2(a), ' ');
    DigitsExclude(Pad2(b), ' ');
    SplitTwo(Pad2(a), Pad2(b), sep);
  }

  /** A bound without exactly one space is refused. */
  lemma StaticDstTimeNeedsOneSpace(s: string, year: int)
    requires Occurrences(s, ' ') != 1
    ensures ParseStaticDstTime(s, year) == Err(ValueError)
  {
  }

  /** A date half without exactly one '-' is refused. */
  lemma DateNeedsOneDash(s: string, year: int)
    requires |Split(s, ' ')| == 2 && Occurrences(Split(s, ' ')[0], '-') != 1
    ensures ParseStaticDstTime(s, year) == Err(ValueError)
  {
  }

  /** A clock half without exactly one ':' is refused. */
  lemma ClockNeedsOneColon(s: string, year: int)
    requires |Split(s, ' ')| == 2 && Occurrences(Split(s, ' ')[1], ':') != 1
    ensures ParseStaticDstTime(s, year) == Err(ValueError)
  {
  }

  /** A bound is accepted exactly when it has the "M-D H:M" shape and `int`
      reads each of the four pieces; the fields are then the values `int`
      gives, whether or not the pieces are zero-padded. */
  lemma ParseStaticDstTimeAccepted(s: string, year: int)
    ensures var halves := Split(s, ' ');
      ParseStaticDstTime(s, year).Ok? <==>
        && |halves| == 2
        && var date := Split(halves[0], '-');
           var clock := Split(halves[1], ':');
           && |date| == 2 && |clock| == 2
           && ParseInt(date[0]).Some? && ParseInt(date[1]).Some?
           && ParseInt(clock[0]).Some? && ParseInt(clock[1]).Some?
    ensures var r := ParseStaticDstTime(s, year);
      var halves := Split(s, ' ');
      r.Ok? ==>
        && |halves| == 2
        && var date := Split(halves[0], '-');
           var clock := Split(halves[1], ':');
           && |date| == 2 && |clock| == 2
           && ParseInt(date[0]) == Some(r.value.month) && ParseInt(date[1]) == Some(r.value.day)
           && ParseInt(clock[0]) == Some(r.value.hour) && ParseInt(clock[1]) == Some(r.value.minute)
  {
  }

  // ---------------------------------------------------------------------
  // is_dst

  /** `DST_MODE.lower() == "dynamic"`. */
  predicate IsDynamicMode(mode: string) {
    ToLower(mode) == "dynamic"
  }

  /** The default mode selects the US rule. */
  lemma DefaultModeIsDynamic()
    ensures IsDynamicMode(DefaultConfig.dstMode)
  {
    var s := DefaultConfig.dstMode;
    assert forall i :: 0 <= i < |s| ==> LowerChar(s[i]) == s[i];
  }

  /** The mode is matched without regard to ASCII case. */
  lemma CapitalisedModeIsDynamic()
    ensures IsDynamicMode("Dynamic")
  {
    var s := "Dynamic";
    assert LowerChar(s[0]) == 'd';
    assert forall i :: 1 <= i < |s| ==> LowerChar(s[i]) == s[i];
  }

  /** Any other word selects the static bounds. */
  lemma StaticModeIsNotDynamic()
    ensures !IsDynamicMode("static")
  {
  }

  /** The mode is compared after lower-casing, so its case never matters. */
  lemma ModeIgnoresCase(mode: string)
    ensures IsDynamicMode(ToLower(mode)) <==> IsDynamicMode(mode)
  {
    ToLowerIdempotent(mode);
  }

  /** The DST period of a local year: computed in dynamic mode, otherwise
      the two static bounds parsed for that year and normalised. */
  function DstBounds(cfg: Config, year: int): (r: Result<(TimeTuple, TimeTuple), Error>)
    ensures r.Ok? ==> Normalized(r.value.0) && Normalized(r.value.1)
    ensures IsDynamicMode(cfg.dstMode) ==> r == Ok(DynamicDstBounds(year))
    ensures !IsDynamicMode(cfg.dstMode) ==>
      (r.Err? <==> ParseStaticDstTime(cfg.dstStart, year).Err? || ParseStaticDstTime(cfg.dstEnd, year).Err?)
  ensures !IsDynamicMode(cfg.dstMode) && r.Ok? ==>
      && Mktime(r.value.0) == Mktime(ParseStaticDstTime(cfg.dstStart, year).value)
      && Mktime(r.value.1) == Mktime(ParseStaticDstTime(cfg.dstEnd, year).value)
  {
    if IsDynamicMode(cfg.dstMode) then Ok(DynamicDstBounds(year))
    else
      match (ParseStaticDstTime(cfg.dstStart, year), ParseStaticDstTime(cfg.dstEnd, year))
      case (Ok(start), Ok(end)) => Ok((Localtime(Mktime(start)), Localtime(Mktime(end))))
      case (Err(e), _) => Err(e)
      case (_, Err(e)) => Err(e)
  }

  /** `is_dst`: False when DST is disabled. Otherwise the instant is moved
      to local standard time and compared, as a tuple, with the DST period
      of its own local year. A static bound that does not parse is a
      `ValueError`. */
  function IsDst(cfg: Config, utc: TimeTuple): (r: Result<bool, Error>)
    ensures !cfg.dstEnabled ==> r == Ok(false)
  {
    if !cfg.dstEnabled then Ok(false)
    else
      var local := AdjustUtcTime(utc, cfg.ntpOffset);
      match DstBounds(cfg, local.year)
      case Err(e) => Err(e)
      case Ok((start, end)) => Ok(AtOrBefore(start, local) && Before(local, end))
  }

  /** With DST enabled, `is_dst` fails exactly when the bounds of the local
      year do not parse, and otherwise answers whether the instant, counted
      in local standard seconds, lies in the half-open period from the start
      (included) to the end (excluded). */
  lemma IsDstWindow(cfg: Config, utc: TimeTuple)
    requires cfg.dstEnabled
    ensures var local := AdjustUtcTime(utc, cfg.ntpOffset);
      var bounds := DstBounds(cfg, local.year);
      && (IsDst(cfg, utc).Err? <==> bounds.Err?)
      && (bounds.Ok? ==> (IsDst(cfg, utc).value <==>
            Mktime(bounds.value.0) <= Mktime(utc) + cfg.ntpOffset * 3600 < Mktime(bounds.value.1)))
  {
    var local := AdjustUtcTime(utc, cfg.ntpOffset);
    var bounds := DstBounds(cfg, local.year);
    if bounds.Ok? {
      BeforeIsEarlier(bounds.value.0, local);
      BeforeIsEarlier(local, bounds.value.1);
    }
  }

  /** An instant whose local standard time is exactly the start of the US
      period is in DST. */
  lemma DynamicStartIncluded(cfg: Config, utc: TimeTuple, year: int)
    requires cfg.dstEnabled && IsDynamicMode(cfg.dstMode)
    requires Mktime(utc) + cfg.ntpOffset * 3600 == Mktime(DynamicDstBounds(year).0)
    ensures IsDst(cfg, utc) == Ok(true)
  {
    var (start, end) := DynamicDstBounds(year);
    MktimeInjective(AdjustUtcTime(utc, cfg.ntpOffset), start);
    BeforeIsEarlier(start, end);
    IsDstWindow(cfg, utc);
  }

  /** One second before the start of the US period is not in DST. */
  lemma DynamicStartPrecededByStandardTime(cfg: Config, utc: TimeTuple, year: int)
    requires cfg.dstEnabled && IsDynamicMode(cfg.dstMode)
    requires Mktime(utc) + cfg.ntpOffset * 3600 == Mktime(DynamicDstBounds(year).0) - 1
    ensures IsDst(cfg, utc) == Ok(false)
  {
    var start := DynamicDstBounds(year).0;
    var justBefore := TimeTuple(year, 3, start.day, 1, 59, 59);
    assert Mktime(justBefore) == Mktime(start) - 1;
    MktimeInjective(AdjustUtcTime(utc, cfg.ntpOffset), justBefore);
    IsDstWindow(cfg, utc);
  }

  /** An instant whose local standard time is exactly the end of the US
      period is not in DST. */
  lemma DynamicEndExcluded(cfg: Config, utc: TimeTuple, year: int)
    requires cfg.dstEnabled && IsDynamicMode(cfg.dstMode)
    requires Mktime(utc) + cfg.ntpOffset * 3600 == Mktime(DynamicDstBounds(year).1)
    ensures IsDst(cfg, utc) == Ok(false)
  {
    var end := DynamicDstBounds(year).1;
    MktimeInjective(AdjustUtcTime(utc, cfg.ntpOffset), end);
    IsDstWindow(cfg, utc);
  }

  /** One second before the end of the US period is still in DST. */
  lemma DynamicEndPrecededByDst(cfg: Config, utc: TimeTuple, year: int)
    requires cfg.dstEnabled && IsDynamicMode(cfg.dstMode)
    requires Mktime(utc) + cfg.ntpOffset * 3600 == Mktime(DynamicDstBounds(year).1) - 1
    ensures IsDst(cfg, utc) == Ok(true)
  {
    var (start, end) := DynamicDstBounds(year);
    var justBefore := TimeTuple(year, 11, end.day, 1, 59, 59);
    assert Mktime(justBefore) == Mktime(end) - 1;
    MktimeInjective(AdjustUtcTime(utc, cfg.ntpOffset), justBefore);
    BeforeIsEarlier(start, justBefore);
    IsDstWindow(cfg, utc);
  }

  /** With the default settings and DST switched on, the period of 2025 is
      the US one. */
  lemma DefaultDstBounds2025()
    ensures DstBounds(DefaultConfig.(dstEnabled := true), 2025)
         == Ok((TimeTuple(2025, 3, 9, 2, 0, 0), TimeTuple(2025, 11, 2, 2, 0, 0)))
  {
    DefaultModeIsDynamic();
    DynamicDstBounds2025();
  }

  /** Noon UTC on the first of a month is 04:00 at an offset of -8 hours. */
  lemma NoonAtMinusEight(year: int, month: int)
    requires 1 <= month <= 12
    ensures AdjustUtcTime(TimeTuple(year, month, 1, 12, 0, 0), -8) == TimeTuple(year, month, 1, 4, 0, 0)
  {
    LocaltimeOfMktime(TimeTuple(year, month, 1, 4, 0, 0));
  }

  /** With the default offset of -8 hours and the US rule, noon UTC on
      1 July 2025 is in DST. */
  lemma SummerNoonIsDst()
    ensures IsDst(DefaultConfig.(dstEnabled := true), TimeTuple(2025, 7, 1, 12, 0, 0)) == Ok(true)
  {
    NoonAtMinusEight(2025, 7);
    DefaultDstBounds2025();
  }

  /** With the same settings, noon UTC on 1 January 2025 is not in DST. */
  lemma WinterNoonIsNotDst()
    ensures IsDst(DefaultConfig.(dstEnabled := true), TimeTuple(2025, 1, 1, 12, 0, 0)) == Ok(false)
  {
    NoonAtMinusEight(2025, 1);
    DefaultDstBounds2025();
  }

  /** The two-digit paddings the default bounds use. */
  lemma SmallPaddings()
    ensures Pad2(0) == "00" && Pad2(2) == "02" && Pad2(3) == "03" && Pad2(7) == "07"
    ensures Pad2(11) == "11" && Pad2(14) == "14"
  {
    assert NatToString(1) == "1";
    assert NatToString(11) == NatToString(1) + "1";
    assert NatToString(14) == NatToString(1) + "4";
  }

  /** How the default static bounds are written. */
  lemma DefaultStaticStrings()
    ensures DefaultConfig.dstStart == FormatStaticDstTime(3, 14, 2, 0)
    ensures DefaultConfig.dstEnd == FormatStaticDstTime(11, 7, 2, 0)
  {
    SmallPaddings();
    assert FormatStaticDstTime(3, 14, 2, 0) == "03" + "-" + "14" + " " + "02" + ":" + "00";
    assert FormatStaticDstTime(11, 7, 2, 0) == "11" + "-" + "07" + " " + "02" + ":" + "00";
  }

  /** The default static bounds read as 14 March and 7 November, 02:00. */
  lemma DefaultStaticBounds(year: int)
    ensures ParseStaticDstTime(DefaultConfig.dstStart, year) == Ok(TimeTuple(year, 3, 14, 2, 0, 0))
    ensures ParseStaticDstTime(DefaultConfig.dstEnd, year) == Ok(TimeTuple(year, 11, 7, 2, 0, 0))
  {
    DefaultStaticStrings();
    ParseStaticDstTimeRoundTrip(3, 14, 2, 0, year);
    ParseStaticDstTimeRoundTrip(11, 7, 2, 0, year);
  }

  // ---------------------------------------------------------------------
  // Static mode

  /** The default bounds, DST enabled, in static mode. */
  const StaticDefaults: Config := DefaultConfig.(dstEnabled := true, dstMode := "static")

  /** 20:00 UTC on the first of a month is noon at an offset of -8 hours. */
  lemma EveningAtMinusEight(year: int, month: int)
    requires 1 <= month <= 12
    ensures AdjustUtcTime(TimeTuple(year, month, 1, 20, 0, 0), -8) == TimeTuple(year, month, 1, 12, 0, 0)
  {
    LocaltimeOfMktime(TimeTuple(year, month, 1, 12, 0, 0));
  }

  /** The static period of the default bounds in 2025, in seconds: from
      14 March 02:00 to 7 November 02:00. */
  lemma StaticDefaultWindow2025()
    ensures DstBounds(StaticDefaults, 2025).Ok?
    ensures Mktime(DstBounds(StaticDefaults, 2025).value.0) == Mktime(TimeTuple(2025, 3, 14, 2, 0, 0))
    ensures Mktime(DstBounds(StaticDefaults, 2025).value.1) == Mktime(TimeTuple(2025, 11, 7, 2, 0, 0))
  {
    StaticModeIsNotDynamic();
    DefaultStaticBounds(2025);
  }

  /** In static mode with the default bounds, local standard noon on
      1 June 2025 is in DST. */
  lemma StaticSummerNoonIsDst()
    ensures IsDst(StaticDefaults, TimeTuple(2025, 6, 1, 20, 0, 0)) == Ok(true)
  {
    EveningAtMinusEight(2025, 6);
    StaticDefaultWindow2025();
    EarlierDate(2025, 3, 14, 2025, 6, 1);
    EarlierDate(2025, 6, 1, 2025, 11, 7);
    IsDstWindow(StaticDefaults, TimeTuple(2025, 6, 1, 20, 0, 0));
  }

  /** With the same settings, local standard noon on 1 December 2025 is not
      in DST. */
  lemma StaticWinterNoonIsNotDst()
    ensures IsDst(StaticDefaults, TimeTuple(2025, 12, 1, 20, 0, 0)) == Ok(false)
  {
    EveningAtMinusEight(2025, 12);
    StaticDefaultWindow2025();
    EarlierDate(2025, 11, 7, 2025, 12, 1);
    IsDstWindow(StaticDefaults, TimeTuple(2025, 12, 1, 20, 0, 0));
  }

  /** A static start later in the year than the static end (a southern
      hemisphere period, which spans New Year) is compared within one local
      year, so no instant is ever in DST. */
  lemma CrossYearStaticWindowNeverApplies(cfg: Config, utc: TimeTuple,
      m1: nat, d1: nat, h1: nat, mi1: nat, m2: nat, d2: nat, h2: nat, mi2: nat)
    requires cfg.dstEnabled && !IsDynamicMode(cfg.dstMode)
    requires cfg.dstStart == FormatStaticDstTime(m1, d1, h1, mi1)
    requires cfg.dstEnd == FormatStaticDstTime(m2, d2, h2, mi2)
    requires 1 <= m2 < m1 <= 12 && 1 <= d1 <= 28 && 1 <= d2 <= 28
    requires h1 < 24 && mi1 < 60 && h2 < 24 && mi2 < 60
    ensures IsDst(cfg, utc) == Ok(false)
  {
    var year := AdjustUtcTime(utc, cfg.ntpOffset).year;
    ParseStaticDstTimeRoundTrip(m1, d1, h1, mi1, year);
    ParseStaticDstTimeRoundTrip(m2, d2, h2, mi2, year);
    EarlierDate(year, m2, d2, year, m1, d1);
    IsDstWindow(cfg, utc);
  }

  /** The two-digit paddings the southern example uses. */
  lemma SouthernPaddings()
    ensures Pad2(0) == "00" && Pad2(2) == "02" && Pad2(3) == "03"
    ensures Pad2(4) == "04" && Pad2(5) == "05" && Pad2(6) == "06" && Pad2(10) == "10"
  {
    assert NatToString(1) == "1";
    assert NatToString(10) == NatToString(1) + "0";
  }

  /** How the southern example bounds are written. */
  lemma SouthernStrings()
    ensures "10-05 02:00" == FormatStaticDstTime(10, 5, 2, 0)
    ensures "04-06 03:00" == FormatStaticDstTime(4, 6, 3, 0)
  {
    SouthernPaddings();
    assert FormatStaticDstTime(10, 5, 2, 0) == "10" + "-" + "05" + " " + "02" + ":" + "00";
    assert FormatStaticDstTime(4, 6, 3, 0) == "04" + "-" + "06" + " " + "03" + ":" + "00";
  }

  /** With DST from 5 October 02:00 to 6 April 03:00 in static mode, no
      instant is ever in DST. */
  lemma SouthernWindowNeverApplies(utc: TimeTuple)
    ensures IsDst(StaticDefaults.(dstStart := "10-05 02:00", dstEnd := "04-06 03:00"), utc) == Ok(false)
  {
    StaticModeIsNotDynamic();
    SouthernStrings();
    CrossYearStaticWindowNeverApplies(StaticDefaults.(dstStart := "10-05 02:00", dstEnd := "04-06 03:00"),
      utc, 10, 5, 2, 0, 4, 6, 3, 0);
  }
}
