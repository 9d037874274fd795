/** The smart-alarm screen: a morning alarm in one of three offset modes, a
    bedtime alarm after Isha capped at midnight, the sleep duration between
    them, the Fajr-to-Shuruq gap, and the 12-hour display of both alarms.

    Times here are integer minutes relative to today's local midnight: every
    input is a schedule time anchored to today, and every offset is a whole
    number of minutes from a slider, so all the millisecond arithmetic of the
    screen divides exactly. */
module SmartAlarm {
  import opened Wrappers
  import opened Text
  import opened Clock
  import opened Schedule

  /** An alarm may not be set closer than this to Shuruq. */
  const MinBeforeShuruq: int := 20
  /** The latest alarm is this long before the Fajr jamat. */
  const MinBeforeJamat: int := 10
  /** The earliest alarm is this long (three hours) before the Fajr jamat. */
  const MaxBeforeJamat: int := 180

  function Max(a: int, b: int): int {
    if a >= b then a else b
  }

  function Min(a: int, b: int): int {
    if a <= b then a else b
  }

  /** `Math.min(Math.max(lo, v), hi)`. The upper bound is applied last, so on
      an empty range (lo > hi) the result is `hi`. */
  function Clamp(v: int, lo: int, hi: int): (r: int)
    ensures r <= hi
    ensures lo <= hi ==> lo <= r
    ensures lo <= v <= hi ==> r == v
    ensures r != v ==> r == lo || r == hi
    ensures v > hi ==> r == hi
    ensures v < lo <= hi ==> r == lo
    ensures hi < lo ==> r == hi
  {
    Min(Max(lo, v), hi)
  }

  datatype MorningMode = AfterFajr | BeforeShuruq | BeforeJamat

  /** The computed alarm (None when it cannot be computed), the slider's
      bounds, and the non-blocking "before Fajr adhan" advisory. */
  datatype MorningPlan = MorningPlan(alarm: Option<int>, minOffset: int, maxOffset: int, preFajrWarning: bool)

  function MorningAlarm(mode: MorningMode, offset: int, fajr: Option<int>, shuruq: Option<int>, jamat: Option<int>): (p: MorningPlan)
    // no alarm without Fajr and Shuruq, nor in BeforeJamat without a jamat time
    ensures p.alarm.None? <==> (fajr.None? || shuruq.None? || (mode == BeforeJamat && jamat.None?))
    // the advisory is raised only in BeforeJamat, exactly when the alarm precedes the adhan
    ensures p.preFajrWarning <==> (mode == BeforeJamat && p.alarm.Some? && p.alarm.value < fajr.value)
    // AfterFajr: never before Fajr, never after max(Fajr, Shuruq - 20)
    ensures mode == AfterFajr && p.alarm.Some? ==>
      fajr.value <= p.alarm.value <= Max(fajr.value, shuruq.value - MinBeforeShuruq)
    ensures mode == AfterFajr && p.alarm.Some? ==>
      p.minOffset == 0 && p.maxOffset == Max(0, shuruq.value - fajr.value - MinBeforeShuruq)
    ensures mode == AfterFajr && p.alarm.Some? && 0 <= offset <= p.maxOffset ==>
      p.alarm.value == fajr.value + offset
    ensures mode == AfterFajr && p.alarm.Some? && offset < 0 ==> p.alarm.value == fajr.value
    ensures mode == AfterFajr && p.alarm.Some? && offset > p.maxOffset ==>
      p.alarm.value == fajr.value + p.maxOffset
    // BeforeShuruq: within [Fajr, Shuruq - 20] when the gap allows, else exactly Fajr
    ensures mode == BeforeShuruq && p.alarm.Some? && shuruq.value - fajr.value >= MinBeforeShuruq ==>
      fajr.value <= p.alarm.value <= shuruq.value - MinBeforeShuruq
    ensures mode == BeforeShuruq && p.alarm.Some? && shuruq.value - fajr.value < MinBeforeShuruq ==>
      p.alarm.value == fajr.value
    ensures mode == BeforeShuruq && p.alarm.Some? ==>
      p.minOffset == MinBeforeShuruq && p.maxOffset == shuruq.value - fajr.value
    ensures mode == BeforeShuruq && p.alarm.Some? && MinBeforeShuruq <= offset <= p.maxOffset ==>
      p.alarm.value == shuruq.value - offset
    ensures mode == BeforeShuruq && p.alarm.Some? && offset < MinBeforeShuruq <= p.maxOffset ==>
      p.alarm.value == shuruq.value - MinBeforeShuruq
    ensures mode == BeforeShuruq && p.alarm.Some? && offset > p.maxOffset ==>
      p.alarm.value == fajr.value
    // BeforeJamat: between three hours and ten minutes before the jamat, not re-clamped to Fajr
    ensures mode == BeforeJamat && p.alarm.Some? ==>
      jamat.value - MaxBeforeJamat <= p.alarm.value <= jamat.value - MinBeforeJamat
    ensures mode == BeforeJamat && p.alarm.Some? ==>
      p.minOffset == MinBeforeJamat && p.maxOffset == MaxBeforeJamat
    ensures mode == BeforeJamat && p.alarm.Some? && MinBeforeJamat <= offset <= MaxBeforeJamat ==>
      p.alarm.value == jamat.value - offset
    ensures mode == BeforeJamat && p.alarm.Some? && offset < MinBeforeJamat ==>
      p.alarm.value == jamat.value - MinBeforeJamat
    ensures mode == BeforeJamat && p.alarm.Some? && offset > MaxBeforeJamat ==>
      p.alarm.value == jamat.value - MaxBeforeJamat
  {
    if fajr.None? || shuruq.None? then MorningPlan(None, 0, 0, false)
    else
      var f := fajr.value;
      var s := shuruq.value;
      var gap := s - f;
      match mode
      case AfterFajr =>
        var maxOffset := Max(0, gap - MinBeforeShuruq);
        MorningPlan(Some(f + Clamp(offset, 0, maxOffset)), 0, maxOffset, false)
      case BeforeShuruq =>
        MorningPlan(Some(s - Clamp(offset, MinBeforeShuruq, gap)), MinBeforeShuruq, gap, false)
      case BeforeJamat =>
        if jamat.None? then MorningPlan(None, 0, 0, false)
        else
          var alarm := jamat.value - Clamp(offset, MinBeforeJamat, MaxBeforeJamat);
          MorningPlan(Some(alarm), MinBeforeJamat, MaxBeforeJamat, alarm < f)
  }

  // ---------------------------------------------------------------------
  // Bedtime

  /** `setHours(24, 0, 0, 0)`: the first midnight strictly after `t`. */
  function NextMidnight(t: int): (m: int)
    ensures t < m <= t + MinutesPerDay
    ensures m % MinutesPerDay == 0
  {
    (t / MinutesPerDay + 1) * MinutesPerDay
  }

  datatype BedtimePlan = BedtimePlan(alarm: Option<int>, maxOffset: int)

  /** Isha plus the offset, cut at the next midnight; there is no lower cut. */
  function BedtimeAlarm(isha: Option<int>, offset: int): (p: BedtimePlan)
    ensures p.alarm.None? <==> isha.None?
    ensures isha.Some? ==> 0 < p.maxOffset <= MinutesPerDay && isha.value + p.maxOffset == NextMidnight(isha.value)
    ensures isha.Some? ==> p.alarm.value <= NextMidnight(isha.value)
    ensures isha.Some? ==> (p.alarm.value >= isha.value <==> offset >= 0)
    ensures isha.Some? && offset <= p.maxOffset ==> p.alarm.value == isha.value + offset
    ensures isha.Some? && offset > p.maxOffset ==> p.alarm.value == NextMidnight(isha.value)
  {
    match isha
    case None => BedtimePlan(None, 0)
    case Some(t) =>
      var maxOffset := NextMidnight(t) - t;
      BedtimePlan(Some(t + Min(offset, maxOffset)), maxOffset)
  }

  // ---------------------------------------------------------------------
  // Durations

  datatype HoursMinutes = HoursMinutes(hours: int, minutes: int)

  /** `h = Math.floor(total / 60)`, `m = total % 60`. For a non-negative total
      the pair splits it exactly; for a negative total that is not a whole
      number of hours, floor and truncation disagree and the pair sums to an
      hour less than the total. */
  function SplitMinutes(total: int): (d: HoursMinutes)
    ensures total >= 0 ==> d.hours * 60 + d.minutes == total && 0 <= d.minutes < 60
    ensures total < 0 && total % 60 == 0 ==> d.hours * 60 + d.minutes == total
    ensures total < 0 && total % 60 != 0 ==> d.hours * 60 + d.minutes == total - 60
  {
    // JavaScript's `%` takes the sign of the dividend
    var minutes := if total >= 0 then total % 60 else -((-total) % 60);
    HoursMinutes(total / 60, minutes)
  }

  /** The sleep figure: the morning alarm, computed on today's schedule, is
      moved to tomorrow before the bedtime alarm is subtracted. */
  function SleepDuration(bedtime: Option<int>, morning: Option<int>): (d: Option<HoursMinutes>)
    ensures d.Some? <==> bedtime.Some? && morning.Some?
    ensures d.Some? ==> d.value == SplitMinutes(morning.value + MinutesPerDay - bedtime.value)
    ensures d.Some? && morning.value + MinutesPerDay >= bedtime.value ==>
      d.value.hours * 60 + d.value.minutes == morning.value + MinutesPerDay - bedtime.value
      && 0 <= d.value.minutes < 60
  {
    if bedtime.None? || morning.None? then None
    else
      var diffMs := At(0, morning.value + MinutesPerDay) - At(0, bedtime.value);
      Some(SplitMinutes(diffMs / MsPerMinute))
  }

  /** The fixed Fajr-to-Shuruq figure on the time card. */
  function FajrShuruqGap(fajr: Option<int>, shuruq: Option<int>): (d: Option<HoursMinutes>)
    ensures d.Some? <==> fajr.Some? && shuruq.Some?
    ensures d.Some? ==> d.value == SplitMinutes(shuruq.value - fajr.value)
    ensures d.Some? && fajr.value <= shuruq.value ==>
      d.value.hours * 60 + d.value.minutes == shuruq.value - fajr.value && 0 <= d.value.minutes < 60
  {
    if fajr.None? || shuruq.None? then None
    else Some(SplitMinutes((At(0, shuruq.value) - At(0, fajr.value)) / MsPerMinute))
  }

  /** Reading a duration text back: the number before the "h", and the
      number between the first space and the next "m". */
  function ParseDuration(s: string): (d: Option<HoursMinutes>)
    ensures d.Some? ==> ParseInt(FirstPiece(s, 'h')).Some? && AfterFirst(s, ' ').Some?
  {
    match (ParseInt(FirstPiece(s, 'h')), AfterFirst(s, ' '))
    case (Some(h), Some(rest)) =>
      (match ParseInt(FirstPiece(rest, 'm'))
       case Some(m) => Some(HoursMinutes(h, m))
       case None => None)
    case _ => None
  }

  /** Where the separators of `${h}h ${m}m` fall, for pieces that hold none
      of them. */
  lemma DurationSeparators(h: string, m: string)
    requires forall j :: 0 <= j < |h| ==> h[j] != 'h' && h[j] != ' '
    requires forall j :: 0 <= j < |m| ==> m[j] != 'm'
    ensures FirstPiece(h + "h " + m + "m", 'h') == h
    ensures AfterFirst(h + "h " + m + "m", ' ') == Some(m + "m")
    ensures FirstPiece(m + "m", 'm') == m
  {
    var s := h + "h " + m + "m";
    assert s == h + ['h'] + (" " + m + "m");
    FirstPieceOfJoin(h, 'h', " " + m + "m");
    var hh := h + "h";
    assert forall j :: 0 <= j < |hh| ==> hh[j] != ' ';
    assert s == hh + [' '] + (m + "m");
    FirstPieceOfJoin(hh, ' ', m + "m");
    assert m + "m" == m + ['m'] + "";
    FirstPieceOfJoin(m, 'm', "");
  }

  /** Text pieces `h` and `m` that hold none of the separators read back
      as their values. */
  lemma ParseDurationOfPieces(h: string, m: string, hours: int, minutes: int)
    requires forall j :: 0 <= j < |h| ==> h[j] != 'h' && h[j] != ' '
    requires forall j :: 0 <= j < |m| ==> m[j] != 'm'
    requires ParseInt(h) == Some(hours) && ParseInt(m) == Some(minutes)
    ensures ParseDuration(h + "h " + m + "m") == Some(HoursMinutes(hours, minutes))
  {
    DurationSeparators(h, m);
  }

  /** `${h}h ${m}m` reads back as the pair it was written from. */
  lemma ParseDurationOfText(hm: HoursMinutes)
    ensures ParseDuration(IntToString(hm.hours) + "h " + IntToString(hm.minutes) + "m") == Some(hm)
  {
    IntToStringChars(hm.hours);
    IntToStringChars(hm.minutes);
    ParseIntToString(hm.hours);
    ParseIntToString(hm.minutes);
    ParseDurationOfPieces(IntToString(hm.hours), IntToString(hm.minutes), hm.hours, hm.minutes);
  }

  /** `${h}h ${m}m`, or the placeholder when there is nothing to show; the
      text reads back as the duration it shows. */
  function DurationText(d: Option<HoursMinutes>): (s: string)
    ensures d.None? <==> s == "--h --m"
    ensures ParseDuration(s) == d
  {
    match d
    case None =>
      assert FirstPiece("--h --m", 'h') == "--" by {
        assert "--h --m" == "--" + ['h'] + " --m";
        FirstPieceOfJoin("--", 'h', " --m");
      }
      "--h --m"
    case Some(hm) =>
      var h := IntToString(hm.hours);
      var s := h + "h " + IntToString(hm.minutes) + "m";
      ParseDurationOfText(hm);
      assert s[1] != '-' by {
        if |h| == 1 {
          assert s[1] == 'h';
        } else if hm.hours < 0 {
          assert s[1] == h[1..][0];
        } else {
          assert IsDigit(s[1]);
        }
      }
      s
  }

  // ---------------------------------------------------------------------
  // 12-hour display

  datatype AmPm = AmPm(time: string, ampm: string)

  /** `formatAMPM`: hour of the day modulo 12 with 0 shown as 12, both fields
      padded to two digits, "PM" from noon on. */
  function FormatAmPm(t: Option<int>): (r: AmPm)
    ensures t.None? ==> r == AmPm("--:--", "--")
    ensures t.Some? ==> (r.ampm == "PM" <==> (t.value % MinutesPerDay) / 60 >= 12)
    ensures t.Some? ==> r.ampm == "PM" || r.ampm == "AM"
    ensures t.Some? ==> |r.time| == 5 && r.time[2] == ':'
  {
    match t
    case None => AmPm("--:--", "--")
    case Some(m) =>
      var hours := (m % MinutesPerDay) / 60;
      var minutes := (m % MinutesPerDay) % 60;
      var ampm := if hours >= 12 then "PM" else "AM";
      AmPm(Hhmm(Hour12(hours), minutes), ampm)
  }

  /** Reading a 12-hour display back to a minute of the day. */
  function To24(hour12: nat, pm: bool): nat {
    hour12 % 12 + (if pm then 12 else 0)
  }

  /** The hour shown on a 12-hour clock for a 24-hour hour. */
  function Hour12(hours: nat): nat {
    if hours % 12 == 0 then 12 else hours % 12
  }

  lemma To24OfHour12(hours: nat)
    requires hours < 24
    ensures 1 <= Hour12(hours) <= 12
    ensures To24(Hour12(hours), hours >= 12) == hours
  {
  }

  lemma FormatAmPmFields(t: int)
    ensures
      var r := t % MinutesPerDay;
      && 0 <= r / 60 < 24
      && (r / 60) * 60 + r % 60 == r
      && FormatAmPm(Some(t)) == AmPm(Hhmm(Hour12(r / 60), r % 60), if r / 60 >= 12 then "PM" else "AM")
  {
  }

  /** The 12-hour display loses nothing: its hour is in 1..12, its minute is
      the instant's minute, and with the AM/PM mark it gives back the minute
      of the day. */
  lemma AmPmRoundTrip(t: int)
    ensures
      var f := FormatAmPm(Some(t));
      var c := ParseClock(f.time);
      && c.Some?
      && 1 <= c.value.hour <= 12
      && c.value.minute == (t % MinutesPerDay) % 60
      && MinuteOfDay(ClockTime(To24(c.value.hour, f.ampm == "PM"), c.value.minute)) == t % MinutesPerDay
  {
    var r := t % MinutesPerDay;
    FormatAmPmFields(t);
    To24OfHour12(r / 60);
    ParseHhmm(Hour12(r / 60), r % 60);
  }

  // ---------------------------------------------------------------------
  // The whole screen

  datatype Screen = Screen(
    morning: MorningPlan,
    bedtime: BedtimePlan,
    sleepText: string,
    gapText: string,
    morningShown: AmPm,
    bedtimeShown: AmPm)

  /** The screen computed from today's parsed schedule. */
  function ScreenOf(d: DailySchedule, mode: MorningMode, morningOffset: int, bedtimeOffset: int): (s: Screen)
    // the morning alarm reads Fajr's adhan, Shuruq and Fajr's jamat; the bedtime alarm reads Isha's adhan
    ensures s.morning == MorningAlarm(mode, morningOffset, OptInt(d.fajr.adhan), OptInt(d.shuruq), OptInt(d.fajr.jamat))
    ensures s.bedtime == BedtimeAlarm(OptInt(d.isha.adhan), bedtimeOffset)
    ensures s.gapText == DurationText(FajrShuruqGap(OptInt(d.fajr.adhan), OptInt(d.shuruq)))
    // the sleep text and both displays are derived from the two alarms
    ensures s.sleepText == DurationText(SleepDuration(s.bedtime.alarm, s.morning.alarm))
    ensures s.morningShown == FormatAmPm(s.morning.alarm) && s.bedtimeShown == FormatAmPm(s.bedtime.alarm)
  {
    var fajr := OptInt(d.fajr.adhan);
    var shuruq := OptInt(d.shuruq);
    var morning := MorningAlarm(mode, morningOffset, fajr, shuruq, OptInt(d.fajr.jamat));
    var bedtime := BedtimeAlarm(OptInt(d.isha.adhan), bedtimeOffset);
    Screen(morning, bedtime,
      DurationText(SleepDuration(bedtime.alarm, morning.alarm)),
      DurationText(FajrShuruqGap(fajr, shuruq)),
      FormatAmPm(morning.alarm), FormatAmPm(bedtime.alarm))
  }

  /** The screen for today's stored entry; None is the "Loading" state. */
  function SmartAlarmScreen(today: Option<StoredDay>, mode: MorningMode, morningOffset: int, bedtimeOffset: int): (r: Option<Screen>)
    ensures r.None? <==> today.None?
    ensures r.Some? ==> r.value == ScreenOf(Load(today.value), mode, morningOffset, bedtimeOffset)
    ensures r.Some? ==> (r.value.sleepText == "--h --m" <==> r.value.morning.alarm.None? || r.value.bedtime.alarm.None?)
    ensures r.Some? ==> (r.value.morningShown == AmPm("--:--", "--") <==> r.value.morning.alarm.None?)
    // the morning alarm reads today's Fajr adhan, Shuruq and Fajr jamat; the bedtime alarm reads Isha's adhan
    ensures r.Some? ==>
      var d := Load(today.value);
      && r.value.morning == MorningAlarm(mode, morningOffset, OptInt(d.fajr.adhan), OptInt(d.shuruq), OptInt(d.fajr.jamat))
      && r.value.bedtime == BedtimeAlarm(OptInt(d.isha.adhan), bedtimeOffset)
      && r.value.gapText == DurationText(FajrShuruqGap(OptInt(d.fajr.adhan), OptInt(d.shuruq)))
    ensures r.Some? ==>
      && r.value.sleepText == DurationText(SleepDuration(r.value.bedtime.alarm, r.value.morning.alarm))
      && r.value.morningShown == FormatAmPm(r.value.morning.alarm)
      && r.value.bedtimeShown == FormatAmPm(r.value.bedtime.alarm)
  {
    match today
    case None => None
    case Some(stored) => Some(ScreenOf(Load(stored), mode, morningOffset, bedtimeOffset))
  }

  /** In the after-Fajr mode, with offsets inside both sliders' ranges, the
      screen's alarms are the day's Fajr adhan plus the morning offset and
      its Isha adhan plus the bedtime offset, and the sleep figure behind the
      sleep text spans from the bedtime alarm to tomorrow's morning alarm. */
  lemma ScreenReadsTodaysTimes(d: DailySchedule, morningOffset: int, bedtimeOffset: int)
    requires d.fajr.adhan.Some? && d.shuruq.Some? && d.isha.adhan.Some?
    requires 0 <= morningOffset <= d.shuruq.value - d.fajr.adhan.value - MinBeforeShuruq
    requires d.isha.adhan.value < MinutesPerDay
    requires 0 <= bedtimeOffset <= MinutesPerDay - d.isha.adhan.value
    ensures ScreenOf(d, AfterFajr, morningOffset, bedtimeOffset).morning.alarm == Some(d.fajr.adhan.value + morningOffset)
    ensures ScreenOf(d, AfterFajr, morningOffset, bedtimeOffset).bedtime.alarm == Some(d.isha.adhan.value + bedtimeOffset)
    ensures
      var s := ScreenOf(d, AfterFajr, morningOffset, bedtimeOffset);
      SleepDuration(s.bedtime.alarm, s.morning.alarm) ==
        Some(SplitMinutes(d.fajr.adhan.value + morningOffset + MinutesPerDay - (d.isha.adhan.value + bedtimeOffset)))
  {
    ScreenMorningInRange(d, morningOffset, bedtimeOffset);
    ScreenBedtimeInRange(d, morningOffset, bedtimeOffset);
    SleepOfAlarms(d.isha.adhan.value + bedtimeOffset, d.fajr.adhan.value + morningOffset);
  }

  lemma ScreenMorningInRange(d: DailySchedule, morningOffset: int, bedtimeOffset: int)
    requires d.fajr.adhan.Some? && d.shuruq.Some?
    requires 0 <= morningOffset <= d.shuruq.value - d.fajr.adhan.value - MinBeforeShuruq
    ensures ScreenOf(d, AfterFajr, morningOffset, bedtimeOffset).morning.alarm == Some(d.fajr.adhan.value + morningOffset)
  {
    var morning := MorningAlarm(AfterFajr, morningOffset, OptInt(d.fajr.adhan), OptInt(d.shuruq), OptInt(d.fajr.jamat));
    assert morning.alarm == Some(d.fajr.adhan.value + morningOffset) by {
      AfterFajrInRange(d.fajr.adhan.value, d.shuruq.value, OptInt(d.fajr.jamat), morningOffset);
    }
  }

  lemma ScreenBedtimeInRange(d: DailySchedule, morningOffset: int, bedtimeOffset: int)
    requires d.isha.adhan.Some? && d.isha.adhan.value < MinutesPerDay
    requires 0 <= bedtimeOffset <= MinutesPerDay - d.isha.adhan.value
    ensures ScreenOf(d, AfterFajr, morningOffset, bedtimeOffset).bedtime.alarm == Some(d.isha.adhan.value + bedtimeOffset)
  {
    var bedtime := BedtimeAlarm(OptInt(d.isha.adhan), bedtimeOffset);
    assert bedtime.alarm == Some(d.isha.adhan.value + bedtimeOffset) by {
      BedtimeInRange(d.isha.adhan.value, bedtimeOffset);
    }
  }

  lemma SleepOfAlarms(bedtime: int, morning: int)
    ensures SleepDuration(Some(bedtime), Some(morning)) == Some(SplitMinutes(morning + MinutesPerDay - bedtime))
  {
  }

  lemma AfterFajrInRange(f: int, s: int, jamat: Option<int>, offset: int)
    requires 0 <= offset <= s - f - MinBeforeShuruq
    ensures MorningAlarm(AfterFajr, offset, Some(f), Some(s), jamat).alarm == Some(f + offset)
  {
  }

  lemma BedtimeInRange(i: nat, offset: int)
    requires i < MinutesPerDay && 0 <= offset <= MinutesPerDay - i
    ensures BedtimeAlarm(Some(i), offset).alarm == Some(i + offset)
  {
    assert NextMidnight(i) == MinutesPerDay;
  }

  function OptInt(o: Option<nat>): (r: Option<int>)
    ensures r.Some? <==> o.Some?
    ensures r.Some? ==> r.value == o.value
  {
    match o
    case None => None
    case Some(v) => Some(v)
  }

  // ---------------------------------------------------------------------
  // Worked examples (Fajr 05:00, Shuruq 06:30, jamat 05:30)

  lemma AfterFajrExample()
    ensures MorningAlarm(AfterFajr, 1000, Some(300), Some(390), None) == MorningPlan(Some(370), 0, 70, false)
  {
  }

  lemma BeforeShuruqExamples()
    ensures MorningAlarm(BeforeShuruq, 5, Some(300), Some(390), None) == MorningPlan(Some(370), 20, 90, false)
    ensures MorningAlarm(BeforeShuruq, 200, Some(300), Some(390), None) == MorningPlan(Some(300), 20, 90, false)
  {
  }

  lemma BeforeJamatExample()
    ensures MorningAlarm(BeforeJamat, 150, Some(300), Some(390), Some(330)) == MorningPlan(Some(180), 10, 180, true)
  {
  }

  lemma SleepExample()
    ensures SleepDuration(Some(21 * 60 + 30), Some(5 * 60 + 20)) == Some(HoursMinutes(7, 50))
  {
  }
}
