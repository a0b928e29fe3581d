/** One pass of the periodic NTP sync task (`ntp_time_sync_task`): check
    the UTC time the NTP client returned, choose the effective offset (base
    offset, plus the DST offset while DST is in effect), convert to local
    time, format it as "YYYY-MM-DD HH:MM:SS", and record in the global
    `time_synced` flag that a sync has succeeded. */
module NtpSync {
  import opened Wrappers
  import opened Calendar
  import opened Text
  import opened Dst

  /** The six `struct_time` fields the client hands over; any of them can
      be missing. */
  datatype NtpTime = NtpTime(
    year: Option<int>, month: Option<int>, day: Option<int>,
    hour: Option<int>, minute: Option<int>, second: Option<int>)

  predicate HasAllFields(t: NtpTime) {
    && t.year.Some? && t.month.Some? && t.day.Some?
    && t.hour.Some? && t.minute.Some? && t.second.Some?
  }

  /** The UTC time of a sample, when the client answered and no field is
      missing. */
  function CompleteTime(sample: Option<NtpTime>): (r: Option<TimeTuple>)
    ensures r.Some? <==> (sample.Some? && HasAllFields(sample.value))
    ensures r.Some? ==> r.value == TimeTuple(sample.value.year.value, sample.value.month.value,
      sample.value.day.value, sample.value.hour.value, sample.value.minute.value, sample.value.second.value)
  {
    match sample
    case None => None
    case Some(t) =>
      match (t.year, t.month, t.day, t.hour, t.minute, t.second)
      case (Some(y), Some(mo), Some(d), Some(h), Some(mi), Some(s)) => Some(TimeTuple(y, mo, d, h, mi, s))
      case _ => None
  }

  // ---------------------------------------------------------------------
  // The logged time

  /** `"{}-{:02d}-{:02d} {:02d}:{:02d}:{:02d}".format(...)`: the date and
      the clock, separated by a space. */
  function FormatTime(t: TimeTuple): string {
    FormatDate(t) + " " + FormatClock(t)
  }

  function FormatDate(t: TimeTuple): string {
    IntToString(t.year) + "-" + Pad2(t.month) + "-" + Pad2(t.day)
  }

  function FormatClock(t: TimeTuple): string {
    Pad2(t.hour) + ":" + Pad2(t.minute) + ":" + Pad2(t.second)
  }

  /** Reads a "YYYY-MM-DD HH:MM:SS" line back into its six fields. */
  function ParseTime(s: string): Option<TimeTuple> {
    var halves := Split(s, ' ');
    if |halves| != 2 then None
    else
      var date := Split(halves[0], '-');
      var clock := Split(halves[1], ':');
      if |date| != 3 || |clock| != 3 then None
      else
        match (ParseInt(date[0]), ParseInt(date[1]), ParseInt(date[2]),
               ParseInt(clock[0]), ParseInt(clock[1]), ParseInt(clock[2]))
        case (Some(y), Some(mo), Some(d), Some(h), Some(mi), Some(sec)) =>
          Some(TimeTuple(y, mo, d, h, mi, sec))
        case _ => None
  }

  /** Three pieces without the separator, joined by it, split back apart. */
  lemma SplitThree(a: string, b: string, c: string, sep: char)
    requires sep !in a && sep !in b && sep !in c
    ensures Split(a + [sep] + b + [sep] + c, sep) == [a, b, c]
  {
    SplitTwo(b, c, sep);
    SplitAfterPiece(a, b + [sep] + c, sep);
    assert a + [sep] + b + [sep] + c == a + [sep] + (b + [sep] + c);
  }

  /** Three non-negative numbers, printed as digits and joined by a
      separator that is not a digit, split back into the three printings;
      the result holds no space. */
  lemma DigitTriple(a: string, b: string, c: string, sep: char) returns (s: string)
    requires AllDigits(a) && AllDigits(b) && AllDigits(c)
    requires !IsDigit(sep) && sep != ' '
    ensures s == a + [sep] + b + [sep] + c
    ensures Split(s, sep) == [a, b, c]
    ensures ' ' !in s
  {
    s := a + [sep] + b + [sep] + c;
    DigitsExclude(a, sep); DigitsExclude(b, sep); DigitsExclude(c, sep);
    DigitsExclude(a, ' '); DigitsExclude(b, ' '); DigitsExclude(c, ' ');
    SplitThree(a, b, c, sep);
  }

  /** How a formatted time splits: at the space into date and clock, and
      these at '-' and ':' into the six printed fields. */
  lemma FormattedTimePieces(t: TimeTuple) returns (date: string, clock: string)
    requires t.year >= 0 && t.month >= 0 && t.day >= 0
    requires t.hour >= 0 && t.minute >= 0 && t.second >= 0
    ensures Split(FormatTime(t), ' ') == [date, clock]
    ensures Split(date, '-') == [IntToString(t.year), Pad2(t.month), Pad2(t.day)]
    ensures Split(clock, ':') == [Pad2(t.hour), Pad2(t.minute), Pad2(t.second)]
  {
    date := DigitTriple(IntToString(t.year), Pad2(t.month), Pad2(t.day), '-');
    clock := DigitTriple(Pad2(t.hour), Pad2(t.minute), Pad2(t.second), ':');
    assert date == FormatDate(t) && clock == FormatClock(t);
    SplitTwo(date, clock, ' ');
  }

  /** The logged line determines the local time: reading it back gives the
      six fields, for any normalised time from year 0 on. */
  lemma FormatTimeRoundTrip(t: TimeTuple)
    requires Normalized(t) && t.year >= 0
    ensures ParseTime(FormatTime(t)) == Some(t)
  {
    var date, clock := FormattedTimePieces(t);
    var halves := Split(FormatTime(t), ' ');
    assert halves[0] == date && halves[1] == clock;
    ParseIntToString(t.year);
    ParseIntPad2(t.month);
    ParseIntPad2(t.day);
    ParseIntPad2(t.hour);
    ParseIntPad2(t.minute);
    ParseIntPad2(t.second);
  }

  /** Every field of a normalised time after the year takes exactly two
      characters: the line is 15 characters longer than the year. */
  lemma FormatTimeLength(t: TimeTuple)
    requires Normalized(t)
    ensures |FormatTime(t)| == |IntToString(t.year)| + 15
  {
  }

  // ---------------------------------------------------------------------
  // One sync attempt

  datatype SyncOutcome =
    | InvalidResponse                  // no answer, or a field missing
    | SyncFailed(error: Error)         // an exception, caught and logged
    | Synced(offset: int, local: TimeTuple, formatted: string)

  /** One pass of the loop body, as evidently intended: an incomplete
      sample is reported as invalid; otherwise the effective offset is the
      base offset, plus the DST offset when `is_dst` holds, and the sample is
      converted by that many hours and formatted. An exception from `is_dst`
      ends the pass as a failure. */
  function SyncAttempt(cfg: Config, sample: Option<NtpTime>): (r: SyncOutcome)
    ensures r == InvalidResponse <==> CompleteTime(sample).None?
  {
    match CompleteTime(sample)
    case None => InvalidResponse
    case Some(utc) =>
      match IsDst(cfg, utc)
      case Err(e) => SyncFailed(e)
      case Ok(dst) =>
        var offset := if dst then cfg.ntpOffset + cfg.dstOffset else cfg.ntpOffset;
        var local := AdjustUtcTime(utc, offset);
        Synced(offset, local, FormatTime(local))
  }

  /** What a pass reports: a failure exactly when `is_dst` raised; on
      success the effective offset is the base offset plus the DST offset
      exactly when DST is in effect (only the base offset with DST
      disabled), the local time is the normalised time that many hours
      after the sample, and the logged line is its formatting. */
  lemma SyncOutcomeMeaning(cfg: Config, sample: Option<NtpTime>)
    requires CompleteTime(sample).Some?
    ensures var utc := CompleteTime(sample).value;
      var r := SyncAttempt(cfg, sample);
      && (r.SyncFailed? <==> IsDst(cfg, utc).Err?)
      && (r.SyncFailed? ==> r.error == IsDst(cfg, utc).error)
      && (r.Synced? ==>
        && r.offset == cfg.ntpOffset + (if IsDst(cfg, utc).value then cfg.dstOffset else 0)
        && (!cfg.dstEnabled ==> r.offset == cfg.ntpOffset)
        && Normalized(r.local)
        && Mktime(r.local) == Mktime(utc) + r.offset * 3600
        && r.formatted == FormatTime(r.local))
  {
  }

  /** The local time of a successful sync converts back to the UTC sample
      by the same offset. */
  lemma SyncedLocalRoundTrip(cfg: Config, sample: Option<NtpTime>)
    requires SyncAttempt(cfg, sample).Synced?
    requires Normalized(CompleteTime(sample).value)
    ensures var r := SyncAttempt(cfg, sample);
      AdjustUtcTime(r.local, -r.offset) == CompleteTime(sample).value
  {
    var r := SyncAttempt(cfg, sample);
    SyncOutcomeMeaning(cfg, sample);
    MktimeInjective(AdjustUtcTime(r.local, -r.offset), CompleteTime(sample).value);
  }

  /** With DST enabled in dynamic mode every complete sample syncs. */
  lemma DynamicModeAlwaysSyncs(cfg: Config, sample: Option<NtpTime>)
    requires cfg.dstEnabled && IsDynamicMode(cfg.dstMode)
    requires CompleteTime(sample).Some?
    ensures SyncAttempt(cfg, sample).Synced?
  {
  }

  /** The pass as the source has it. `adjust_utc_time` is defined only
      when DST is enabled, so with DST disabled the conversion raises
      `NameError`, which the loop catches and logs. */
  function SyncAttemptAsWritten(cfg: Config, sample: Option<NtpTime>): (r: SyncOutcome)
    ensures cfg.dstEnabled ==> r == SyncAttempt(cfg, sample)
    ensures !cfg.dstEnabled ==>
      r == if CompleteTime(sample).None? then InvalidResponse else SyncFailed(NameError)
  {
    match CompleteTime(sample)
    case None => InvalidResponse
    case Some(utc) =>
      if !cfg.dstEnabled then SyncFailed(NameError)
      else SyncAttempt(cfg, sample)
  }

  /** With the default settings (DST disabled) the pass as written never
      syncs, while the intended pass syncs every complete sample, at the
      base offset. */
  lemma DefaultSettingsNeverSync(sample: Option<NtpTime>)
    requires CompleteTime(sample).Some?
    ensures SyncAttemptAsWritten(DefaultConfig, sample) == SyncFailed(NameError)
    ensures SyncAttempt(DefaultConfig, sample).Synced?
    ensures SyncAttempt(DefaultConfig, sample).offset == DefaultConfig.ntpOffset
  {
  }

  // ---------------------------------------------------------------------
  // The task and its flag

  /** The passes over a run of samples, in order. */
  function SyncAll(cfg: Config, samples: seq<Option<NtpTime>>): (r: seq<SyncOutcome>)
    ensures |r| == |samples|
  {
    if |samples| == 0 then []
    else SyncAll(cfg, samples[..|samples| - 1]) + [SyncAttempt(cfg, samples[|samples| - 1])]
  }

  /** Pass i of a run is the pass on sample i: no pass depends on another. */
  lemma {:induction false} SyncAllPointwise(cfg: Config, samples: seq<Option<NtpTime>>, i: int)
    requires 0 <= i < |samples|
    ensures SyncAll(cfg, samples)[i] == SyncAttempt(cfg, samples[i])
  {
    if i < |samples| - 1 {
      SyncAllPointwise(cfg, samples[..|samples| - 1], i);
    }
  }

  predicate AnySynced(outcomes: seq<SyncOutcome>) {
    exists i :: 0 <= i < |outcomes| && outcomes[i].Synced?
  }

  lemma AnySyncedAppend(outcomes: seq<SyncOutcome>, o: SyncOutcome)
    ensures AnySynced(outcomes + [o]) == (AnySynced(outcomes) || o.Synced?)
  {
    if AnySynced(outcomes) {
      var i :| 0 <= i < |outcomes| && outcomes[i].Synced?;
      assert (outcomes + [o])[i] == outcomes[i];
    }
    if o.Synced? {
      assert (outcomes + [o])[|outcomes|] == o;
    }
  }

  /** The sync task with the global `time_synced` flag it sets. */
  class NtpTimeSync {
    const cfg: Config
    var timeSynced: bool

    constructor(cfg: Config)
      ensures this.cfg == cfg && !timeSynced
    {
      this.cfg := cfg;
      timeSynced := false;
    }

    /** One pass of the loop: the flag becomes true on a successful sync
        and is otherwise left as it was. */
    method SyncStep(sample: Option<NtpTime>) returns (outcome: SyncOutcome)
      modifies this
      ensures outcome == SyncAttempt(cfg, sample)
      ensures timeSynced == (old(timeSynced) || outcome.Synced?)
    {
      var t := CompleteTime(sample);
      if t.None? {
        return InvalidResponse;
      }
      var utc := t.value;
      assert CompleteTime(sample) == Some(utc);
      var dst := IsDst(cfg, utc);
      if dst.Err? {
        return SyncFailed(dst.error);
      }
      var effectiveOffset := cfg.ntpOffset;
      if dst.value {
        effectiveOffset := effectiveOffset + cfg.dstOffset;
      }
      var local := AdjustUtcTime(utc, effectiveOffset);
      var formatted := FormatTime(local);
      timeSynced := true;
      outcome := Synced(effectiveOffset, local, formatted);
    }

    /** Successive passes over the samples the client returns, one per sync
        interval: the flag ends true exactly when it started true or some
        pass synced; it is never reset. */
    method Run(samples: seq<Option<NtpTime>>) returns (outcomes: seq<SyncOutcome>)
      modifies this
      ensures outcomes == SyncAll(cfg, samples)
      ensures timeSynced == (old(timeSynced) || AnySynced(outcomes))
    {
      outcomes := [];
      for k := 0 to |samples|
        invariant outcomes == SyncAll(cfg, samples[..k])
        invariant timeSynced == (old(timeSynced) || AnySynced(outcomes))
      {
        var outcome := SyncStep(samples[k]);
        AnySyncedAppend(outcomes, outcome);
        assert samples[..k + 1][..k] == samples[..k];
        outcomes := outcomes + [outcome];
      }
      assert samples[..|samples|] == samples;
    }
  }
}
