/** Times of day and instants.

    A schedule stores each time as an "HH:MM" string; the screens turn it into
    an instant with `setHours(h, m, 0, 0)` on a chosen day. Here an instant is
    an integer count of milliseconds, local day `d` starts at `d * MsPerDay`,
    and anchoring a time of day is plain addition, which also reproduces how
    `setHours` rolls an hour of 24 or more into the following day. */
module Clock {
  import opened Wrappers
  import opened Text

  const MinutesPerHour: nat := 60
  const MinutesPerDay: nat := 1440
  const MsPerSecond: nat := 1000
  const MsPerMinute: nat := 60000
  const MsPerHour: nat := 3600000
  const MsPerDay: nat := 86400000

  datatype ClockTime = ClockTime(hour: nat, minute: nat)

  function MinuteOfDay(t: ClockTime): nat {
    t.hour * 60 + t.minute
  }

  /** The "HH:MM" rendering the importer writes: both fields zero-padded. */
  function Hhmm(hour: nat, minute: nat): string {
    Pad2(hour) + ":" + Pad2(minute)
  }

  /** `const [h, m] = timeStr.split(":").map(Number)` for pieces made of
      decimal digits: an empty piece is `Number("") == 0`, so "12:" is noon.
      A string without a colon leaves `m` undefined, and a piece with any
      other character is NaN; either way no clock time results. */
  function ParseClock(s: string): (r: Option<ClockTime>)
    ensures r.Some? ==> ':' in s
    ensures r.Some? <==> AfterFirst(s, ':').Some? && AllDigits(FirstPiece(s, ':'))
                         && AllDigits(FirstPiece(AfterFirst(s, ':').value, ':'))
    ensures r.Some? ==> r.value.hour == ParseDigits(FirstPiece(s, ':'))
                        && r.value.minute == ParseDigits(FirstPiece(AfterFirst(s, ':').value, ':'))
  {
    var h := FirstPiece(s, ':');
    match AfterFirst(s, ':')
    case None => None
    case Some(rest) =>
      var m := FirstPiece(rest, ':');
      if AllDigits(h) && AllDigits(m) then Some(ClockTime(ParseDigits(h), ParseDigits(m))) else None
  }

  /** Reading back what the importer wrote recovers the hour and minute. */
  lemma ParseHhmm(hour: nat, minute: nat)
    ensures ParseClock(Hhmm(hour, minute)) == Some(ClockTime(hour, minute))
  {
    var h := Pad2(hour);
    var m := Pad2(minute);
    assert Hhmm(hour, minute) == h + [':'] + m;
    FirstPieceOfJoin(h, ':', m);
    FirstPieceOfDigits(m, ':');
  }

  /** What `parseTime` returns: null for a missing or empty string, an
      Invalid Date (truthy, but every comparison with it is false) for a
      string that does not read as a time, otherwise the time of day. */
  datatype TimeParse = NoTime | InvalidTime | ValidTime(minute: nat)

  function ParseTime(s: Option<string>): (r: TimeParse)
    ensures r.NoTime? <==> s.None? || s.value == ""
    ensures r.ValidTime? <==> s.Some? && ParseClock(s.value).Some?
    ensures r.ValidTime? ==> r.minute == MinuteOfDay(ParseClock(s.value).value)
  {
    match s
    case None => NoTime
    case Some(str) =>
      if str == "" then NoTime
      else match ParseClock(str)
        case None => InvalidTime
        case Some(t) => ValidTime(MinuteOfDay(t))
  }

  /** The parsed time where only a real time matters: the dashboard scans
      compare with `>` and `<=`, which are false for both null and an
      Invalid Date, and the schedule keeps minutes of the day. */
  function ParseMinutes(s: Option<string>): (r: Option<nat>)
    ensures r.Some? <==> ParseTime(s).ValidTime?
    ensures r.Some? ==> r.value == ParseTime(s).minute
  {
    match ParseTime(s)
    case ValidTime(m) => Some(m)
    case _ => None
  }

  lemma HhmmNonEmpty(hour: nat, minute: nat)
    ensures |Hhmm(hour, minute)| >= 5
  {
  }

  lemma ParseMinutesHhmm(hour: nat, minute: nat)
    ensures ParseTime(Some(Hhmm(hour, minute))) == ValidTime(MinuteOfDay(ClockTime(hour, minute)))
    ensures ParseMinutes(Some(Hhmm(hour, minute))) == Some(MinuteOfDay(ClockTime(hour, minute)))
  {
    HhmmNonEmpty(hour, minute);
    ParseHhmm(hour, minute);
  }

  /** Pieces left empty read as zero, as `Number("")` does: "12:" is noon
      and ":30" is half past midnight; a string without a colon is an
      Invalid Date. */
  lemma EmptyPiecesReadAsZero()
    ensures ParseTime(Some("12:")) == ValidTime(720)
    ensures ParseTime(Some(":30")) == ValidTime(30)
    ensures ParseTime(Some("TBA")) == InvalidTime
  {
    FirstPieceOfJoin("12", ':', "");
    FirstPieceOfDigits("", ':');
    assert "12:" == "12" + [':'] + "";
    assert ParseDigits("12") == 12 by {
      assert "12"[..1] == "1";
    }
    FirstPieceOfJoin("", ':', "30");
    FirstPieceOfDigits("30", ':');
    assert ":30" == "" + [':'] + "30";
    assert ParseDigits("30") == 30 by {
      assert "30"[..1] == "3";
    }
    assert IndexOf("TBA", ':') == None by {
      assert IndexOf("A", ':') == None;
      assert "TBA"[1..] == "BA" && "BA"[1..] == "A";
    }
  }

  /** Local calendar day of an instant, and the instant that day begins. */
  function DayOf(instant: int): int {
    instant / MsPerDay
  }

  function DayStart(day: int): int {
    day * MsPerDay
  }

  lemma DayOfBounds(instant: int)
    ensures DayStart(DayOf(instant)) <= instant < DayStart(DayOf(instant) + 1)
  {
  }

  /** `date.setHours(h, m, 0, 0)` for a time given as minutes of the day. */
  function At(dayStart: int, minuteOfDay: int): int {
    dayStart + minuteOfDay * MsPerMinute
  }

  /** `getDay()`: 0 is Sunday; day 0 (1 January 1970) was a Thursday. */
  function Weekday(day: int): (w: nat)
    ensures w < 7
  {
    (day + 4) % 7
  }

  predicate IsFriday(day: int) {
    Weekday(day) == 5
  }

  lemma FridayEveryWeek(day: int)
    ensures IsFriday(day) <==> IsFriday(day + 7)
    ensures IsFriday(day) ==> !IsFriday(day + 1)
  {
  }
}
