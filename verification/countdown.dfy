/** The countdown widget: the time left until the next prayer as three
    two-digit fields, and the cue (clock tick or screen flash) it gives on
    each of the last four seconds. `now` is an explicit instant in
    milliseconds instead of the widget's one-second timer. */
module Countdown {
  import opened Wrappers
  import opened Text
  import opened Clock

  datatype Remaining = Remaining(hours: string, minutes: string, seconds: string)

  const Zero := Remaining("00", "00", "00")

  datatype Parts = Parts(hours: nat, minutes: nat, seconds: nat)

  const SecondsPerDay: nat := 86400

  /** Whole hours (modulo a day), minutes and seconds of a positive gap. */
  function PartsOf(diff: int): (p: Parts)
    requires diff > 0
    ensures p.hours < 24 && p.minutes < 60 && p.seconds < 60
    ensures p.hours * 3600 + p.minutes * 60 + p.seconds == (diff / 1000) % 86400
  {
    var s := diff / 1000;
    FloorOfFloor(diff);
    DaySeconds(s);
    Parts((diff / 3600000) % 24, (diff / 60000) % 60, s % 60)
  }

  /** Dividing in two steps floors the same way as dividing at once. */
  lemma FloorOfFloor(diff: int)
    requires diff >= 0
    ensures diff / 60000 == (diff / 1000) / 60
    ensures diff / 3600000 == (diff / 1000) / 3600
  {
    var s := diff / 1000;
    var a := diff % 1000;
    assert diff == 1000 * s + a;
    var q := s / 60;
    var b := s % 60;
    assert diff == 60000 * q + (1000 * b + a) && 0 <= 1000 * b + a < 60000;
    var q2 := s / 3600;
    var b2 := s % 3600;
    assert diff == 3600000 * q2 + (1000 * b2 + a) && 0 <= 1000 * b2 + a < 3600000;
  }

  /** Hours, minutes and seconds of a second count rebuild it modulo a day. */
  lemma DaySeconds(s: int)
    requires s >= 0
    ensures ((s / 3600) % 24) * 3600 + ((s / 60) % 60) * 60 + s % 60 == s % 86400
  {
    var m := s / 60;
    var sec := s % 60;
    assert s == 60 * m + sec;
    var h := m / 60;
    var min := m % 60;
    assert m == 60 * h + min;
    assert s / 3600 == h by {
      assert s == 3600 * h + (60 * min + sec) && 0 <= 60 * min + sec < 3600;
    }
    var d := h / 24;
    var hr := h % 24;
    assert h == 24 * d + hr;
    assert s == 86400 * d + (3600 * hr + 60 * min + sec);
    assert 0 <= 3600 * hr + 60 * min + sec < 86400;
  }

  /** `updateCountdown`: no target, no update; a target at or before now
      shows zeros; otherwise each field padded to two digits. */
  function UpdateCountdown(target: Option<int>, now: int, prev: Remaining): (r: Remaining)
    ensures target.None? ==> r == prev
    ensures target.Some? && target.value <= now ==> r == Zero
    ensures target.Some? && target.value > now ==>
      && |r.hours| == 2 && |r.minutes| == 2 && |r.seconds| == 2
      && AllDigits(r.hours) && AllDigits(r.minutes) && AllDigits(r.seconds)
      && ParseDigits(r.hours) < 24 && ParseDigits(r.minutes) < 60 && ParseDigits(r.seconds) < 60
      && ParseDigits(r.hours) * 3600 + ParseDigits(r.minutes) * 60 + ParseDigits(r.seconds)
         == ((target.value - now) / 1000) % SecondsPerDay
  {
    match target
    case None => prev
    case Some(t) =>
      var diff := t - now;
      if diff <= 0 then Zero
      else
        var p := PartsOf(diff);
        Remaining(Pad2(p.hours), Pad2(p.minutes), Pad2(p.seconds))
  }

  /** Within a day the three fields add up to exactly the whole seconds left;
      a gap of a day or more wraps because the hours are taken modulo 24. */
  lemma CountdownExactWithinDay(target: int, now: int, prev: Remaining)
    requires 0 < target - now < MsPerDay
    ensures
      var r := UpdateCountdown(Some(target), now, prev);
      ParseDigits(r.hours) * 3600 + ParseDigits(r.minutes) * 60 + ParseDigits(r.seconds) == (target - now) / 1000
  {
    var secs := (target - now) / 1000;
    assert 0 <= secs < SecondsPerDay;
    assert secs % SecondsPerDay == secs;
  }

  /** `isLastFourSeconds`: hours and minutes "00", seconds in 1..4. */
  predicate LastFourSeconds(r: Remaining) {
    && r.hours == "00"
    && r.minutes == "00"
    && match ParseInt(r.seconds)
       case None => false
       case Some(v) => 0 < v <= 4
  }

  lemma Pad2IsZero(n: nat)
    ensures Pad2(n) == "00" <==> n == 0
  {
    if Pad2(n) == "00" {
      assert ParseDigits("00") == 0;
    }
  }

  /** The all-zero fields are outside the cue window. */
  lemma ZeroNeverCues()
    ensures !LastFourSeconds(Zero)
  {
    assert AllDigits("00");
    assert ParseDigits("00") == 0 by {
      assert "00"[..1] == "0";
    }
    assert ParseInt("00") == Some(0);
  }

  /** For a target ahead, the fields are in the cue window exactly when the
      seconds left, modulo a day, are 1 to 4. */
  lemma CueWindowAhead(diff: int)
    requires diff > 0
    ensures var p := PartsOf(diff);
      LastFourSeconds(Remaining(Pad2(p.hours), Pad2(p.minutes), Pad2(p.seconds))) <==>
      1 <= (diff / 1000) % SecondsPerDay <= 4
  {
    var p := PartsOf(diff);
    Pad2IsZero(p.hours);
    Pad2IsZero(p.minutes);
    assert ParseInt(Pad2(p.seconds)) == Some(p.seconds);
  }

  /** The cue window is the last four whole seconds of the gap taken modulo
      a day; a reached or passed target never cues. */
  lemma LastFourSecondsIff(target: Option<int>, now: int, prev: Remaining)
    requires target.Some?
    ensures target.value <= now ==> !LastFourSeconds(UpdateCountdown(target, now, prev))
    ensures target.value > now ==>
      (LastFourSeconds(UpdateCountdown(target, now, prev)) <==> 1 <= ((target.value - now) / 1000) % SecondsPerDay <= 4)
  {
    if target.value <= now {
      ZeroNeverCues();
    } else {
      CueWindowAhead(target.value - now);
    }
  }

  // ---------------------------------------------------------------------
  // Sound or flash on the last four seconds

  datatype Cue = PlayClock | Flash | NoCue

  const DefaultSound := "Makkah"

  /** The saved preference for the prayer when there is a non-empty one,
      otherwise the default sound. */
  function ChosenSound(prefs: Option<map<string, string>>, prayerName: string): (s: string)
    ensures prefs.Some? && prayerName in prefs.value && prefs.value[prayerName] != "" ==> s == prefs.value[prayerName]
    ensures !(prefs.Some? && prayerName in prefs.value && prefs.value[prayerName] != "") ==> s == DefaultSound
  {
    if prefs.Some? && prayerName in prefs.value && prefs.value[prayerName] != "" then prefs.value[prayerName]
    else DefaultSound
  }

  function CueFor(sound: string): (c: Cue)
    ensures c == PlayClock <==> sound == "Clock Sound"
    ensures c == Flash <==> sound == "Silent"
  {
    if sound == "Clock Sound" then PlayClock else if sound == "Silent" then Flash else NoCue
  }

  /** The effect run when the fields change: it acts only when the seconds
      field differs from the last one seen and the last-four predicate holds,
      and always remembers the new seconds field. */
  function OnTick(lastSeconds: string, r: Remaining, prefs: Option<map<string, string>>, prayerName: string): (res: (Cue, string))
    ensures res.1 == r.seconds
    ensures res.0 != NoCue ==> r.seconds != lastSeconds && LastFourSeconds(r)
    ensures r.seconds != lastSeconds && LastFourSeconds(r) ==> res.0 == CueFor(ChosenSound(prefs, prayerName))
  {
    if r.seconds != lastSeconds && LastFourSeconds(r) then (CueFor(ChosenSound(prefs, prayerName)), r.seconds)
    else (NoCue, r.seconds)
  }

  /** With no saved preferences the default sound is used, which neither
      ticks nor flashes. */
  lemma DefaultNeverCues(lastSeconds: string, r: Remaining, prayerName: string)
    ensures OnTick(lastSeconds, r, None, prayerName).0 == NoCue
  {
  }

  /** A saved preference decides the cue: "Clock Sound" ticks and "Silent"
      flashes in each of the last four seconds, for that prayer only; any
      other prayer without a preference falls back to the silent default. */
  lemma SavedPreferenceCues(lastSeconds: string, r: Remaining, prefs: map<string, string>, prayerName: string, other: string)
    requires r.seconds != lastSeconds && LastFourSeconds(r)
    requires prayerName in prefs && other !in prefs
    ensures prefs[prayerName] == "Clock Sound" ==> OnTick(lastSeconds, r, Some(prefs), prayerName).0 == PlayClock
    ensures prefs[prayerName] == "Silent" ==> OnTick(lastSeconds, r, Some(prefs), prayerName).0 == Flash
    ensures OnTick(lastSeconds, r, Some(prefs), other).0 == NoCue
  {
  }

  lemma ZeroTargetExample(now: int, prev: Remaining)
    ensures UpdateCountdown(Some(now), now, prev) == Zero
    ensures UpdateCountdown(Some(now - 1000), now, prev) == Zero
  {
  }
}
