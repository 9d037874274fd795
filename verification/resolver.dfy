/** The dashboard's prayer resolution: which prayer is next (the countdown
    target), which one is active (the highlighted row), the Friday Jummah
    override of the Dhuhr row, and the six rows the table displays.
    `now` is an explicit instant in milliseconds instead of the one-second
    timer the screen re-renders on. */
module Resolver {
  import opened Wrappers
  import opened Clock
  import opened Schedule

  /** An entry is upcoming when its time is known and strictly after now. */
  predicate Upcoming(t: Option<int>, now: int) {
    t.Some? && t.value > now
  }

  /** An entry has started when its time is known and at or before now. */
  predicate Started(t: Option<int>, now: int) {
    t.Some? && t.value <= now
  }

  /** The forward `for (const p of prayersList)` scan from position `i`:
      the first upcoming entry. */
  function ScanNext(ts: seq<Option<int>>, now: int, i: nat): (r: Option<nat>)
    requires i <= |ts|
    ensures r.Some? ==> i <= r.value < |ts| && Upcoming(ts[r.value], now)
    ensures r.Some? ==> forall j :: i <= j < r.value ==> !Upcoming(ts[j], now)
    ensures r.None? ==> forall j :: i <= j < |ts| ==> !Upcoming(ts[j], now)
    decreases |ts| - i
  {
    if i == |ts| then None
    else if Upcoming(ts[i], now) then Some(i)
    else ScanNext(ts, now, i + 1)
  }

  /** The reverse scan over positions below `i`: the last started entry. */
  function ScanActive(ts: seq<Option<int>>, now: int, i: nat): (r: Option<nat>)
    requires i <= |ts|
    ensures r.Some? ==> r.value < i && Started(ts[r.value], now)
    ensures r.Some? ==> forall j :: r.value < j < i ==> !Started(ts[j], now)
    ensures r.None? ==> forall j :: 0 <= j < i ==> !Started(ts[j], now)
  {
    if i == 0 then None
    else if Started(ts[i - 1], now) then Some(i - 1)
    else ScanActive(ts, now, i - 1)
  }

  function TodayInstants(now: int, repo: Repository): (ts: seq<Option<int>>)
    requires DayOf(now) in repo
    ensures |ts| == |Catalog|
  {
    AdhanInstants(Load(repo[DayOf(now)]), DayStart(DayOf(now)))
  }

  /** Tomorrow's Fajr adhan, anchored to tomorrow, when tomorrow is in the
      table and its Fajr adhan reads as a time. */
  function TomorrowFajr(now: int, repo: Repository): (t: Option<int>)
    ensures t.Some? <==> DayOf(now) + 1 in repo && Load(repo[DayOf(now) + 1]).fajr.adhan.Some?
    ensures t.Some? ==> t.value == At(DayStart(DayOf(now) + 1), Load(repo[DayOf(now) + 1]).fajr.adhan.value)
    ensures t.Some? ==> DayStart(DayOf(now) + 1) <= t.value
  {
    var day := DayOf(now) + 1;
    if day in repo then AnchoredAdhan(Load(repo[day]), DayStart(day), Fajr) else None
  }

  datatype Resolution = Resolution(next: Option<CatalogEntry>, nextTime: Option<int>, active: Option<PrayerKey>)

  /** The forward scan finds the first upcoming entry and no other. */
  lemma ScanNextFindsFirst(ts: seq<Option<int>>, now: int, k: nat)
    requires k < |ts| && Upcoming(ts[k], now)
    requires forall j :: 0 <= j < k ==> !Upcoming(ts[j], now)
    ensures ScanNext(ts, now, 0) == Some(k)
  {
  }

  /** The reverse scan finds the last started entry and no other. */
  lemma ScanActiveFindsLast(ts: seq<Option<int>>, now: int, k: nat)
    requires k < |ts| && Started(ts[k], now)
    requires forall j :: k < j < |ts| ==> !Started(ts[j], now)
    ensures ScanActive(ts, now, |ts|) == Some(k)
  {
  }

  /** The two scans over today's anchored adhan instants `ts`, with
      `tomorrow` as the target when nothing is left today. */
  function ResolveIn(ts: seq<Option<int>>, now: int, tomorrow: Option<int>): (r: Resolution)
    requires |ts| == |Catalog|
    ensures r.next.Some? && r.next.value in Catalog
    ensures forall k :: 0 <= k < |ts| && Upcoming(ts[k], now) && (forall j :: 0 <= j < k ==> !Upcoming(ts[j], now)) ==>
      r.next == Some(Catalog[k]) && r.nextTime == ts[k]
    ensures (forall j :: 0 <= j < |ts| ==> !Upcoming(ts[j], now)) ==>
      r.next == Some(Catalog[0]) && r.nextTime == tomorrow
    ensures forall k :: 0 <= k < |ts| && Started(ts[k], now) && (forall j :: k < j < |ts| ==> !Started(ts[j], now)) ==>
      r.active == Some(Catalog[k].key)
    ensures (forall j :: 0 <= j < |ts| ==> !Started(ts[j], now)) ==> r.active.None?
  {
    var next := ScanNext(ts, now, 0);
    var active := ScanActive(ts, now, |ts|);
    assert forall k :: 0 <= k < |ts| && Upcoming(ts[k], now) && (forall j :: 0 <= j < k ==> !Upcoming(ts[j], now)) ==>
      next == Some(k) by {
      forall k | 0 <= k < |ts| && Upcoming(ts[k], now) && (forall j :: 0 <= j < k ==> !Upcoming(ts[j], now))
        ensures next == Some(k)
      {
        ScanNextFindsFirst(ts, now, k);
      }
    }
    assert forall k :: 0 <= k < |ts| && Started(ts[k], now) && (forall j :: k < j < |ts| ==> !Started(ts[j], now)) ==>
      active == Some(k) by {
      forall k | 0 <= k < |ts| && Started(ts[k], now) && (forall j :: k < j < |ts| ==> !Started(ts[j], now))
        ensures active == Some(k)
      {
        ScanActiveFindsLast(ts, now, k);
      }
    }
    var activeKey := if active.Some? then Some(Catalog[active.value].key) else None;
    match next
    case Some(k) => Resolution(Some(Catalog[k]), ts[k], activeKey)
    case None => Resolution(Some(Catalog[0]), tomorrow, activeKey)
  }

  function Resolve(now: int, repo: Repository): (r: Resolution)
    // no schedule for today: everything stays null
    ensures DayOf(now) !in repo ==> r == Resolution(None, None, None)
    ensures DayOf(now) in repo ==> r.next.Some? && r.next.value in Catalog
    // next: the first catalog entry whose adhan is strictly after now
    ensures DayOf(now) in repo ==>
      var ts := TodayInstants(now, repo);
      forall k :: 0 <= k < |ts| && Upcoming(ts[k], now) && (forall j :: 0 <= j < k ==> !Upcoming(ts[j], now)) ==>
        r.next == Some(Catalog[k]) && r.nextTime == ts[k]
    // nothing left today: Fajr, at tomorrow's time when tomorrow is known
    ensures DayOf(now) in repo ==>
      var ts := TodayInstants(now, repo);
      (forall j :: 0 <= j < |ts| ==> !Upcoming(ts[j], now)) ==>
        r.next == Some(Catalog[0]) && r.nextTime == TomorrowFajr(now, repo)
    // active: the last catalog entry whose adhan is at or before now
    ensures DayOf(now) in repo ==>
      var ts := TodayInstants(now, repo);
      forall k :: 0 <= k < |ts| && Started(ts[k], now) && (forall j :: k < j < |ts| ==> !Started(ts[j], now)) ==>
        r.active == Some(Catalog[k].key)
    // before the first start of the day nothing is active (no carry-over of last night's Isha)
    ensures DayOf(now) in repo ==>
      var ts := TodayInstants(now, repo);
      (forall j :: 0 <= j < |ts| ==> !Started(ts[j], now)) ==> r.active.None?
  {
    if DayOf(now) !in repo then Resolution(None, None, None)
    else ResolveIn(TodayInstants(now, repo), now, TomorrowFajr(now, repo))
  }

  /** The countdown target is never in the past: it is either an adhan still
      ahead today or tomorrow's Fajr. */
  lemma NextIsAhead(now: int, repo: Repository)
    ensures Resolve(now, repo).nextTime.Some? ==> Resolve(now, repo).nextTime.value > now
  {
    DayOfBounds(now);
  }

  /** Over increasing instants, with `n` the first entry after now: `n` is
      next and the entry just before it is active (none when `n` is first). */
  lemma ResolveInAtFirstUpcoming(ts: seq<Option<int>>, now: int, tomorrow: Option<int>, n: nat)
    requires |ts| == |Catalog| && StrictlyIncreasing(ts) && n < |ts|
    requires ts[n].value > now
    requires n > 0 ==> ts[n - 1].value <= now
    ensures ResolveIn(ts, now, tomorrow).next == Some(Catalog[n])
    ensures ResolveIn(ts, now, tomorrow).nextTime == ts[n]
    ensures ResolveIn(ts, now, tomorrow).active == (if n == 0 then None else Some(Catalog[n - 1].key))
  {
    forall j | 0 <= j < n
      ensures !Upcoming(ts[j], now)
    {
      if j < n - 1 {
        IncreasingPairwise(ts, j, n - 1);
      }
    }
    forall j | n <= j < |ts|
      ensures !Started(ts[j], now)
    {
      if n < j {
        IncreasingPairwise(ts, n, j);
      }
    }
  }

  /** On a well-ordered day, with `n` the first entry after now: `n` is next
      and the entry just before it is active (none when `n` is Fajr). This is
      both "active is next minus one" and the tie-break: an adhan equal to now
      counts as started, not as upcoming. */
  lemma ActiveJustBeforeNext(now: int, repo: Repository, n: nat)
    requires DayOf(now) in repo
    requires StrictlyIncreasing(TodayInstants(now, repo))
    requires n < |Catalog|
    requires TodayInstants(now, repo)[n].value > now
    requires n > 0 ==> TodayInstants(now, repo)[n - 1].value <= now
    ensures Resolve(now, repo).next == Some(Catalog[n])
    ensures Resolve(now, repo).nextTime == TodayInstants(now, repo)[n]
    ensures Resolve(now, repo).active == (if n == 0 then None else Some(Catalog[n - 1].key))
  {
    ResolveInAtFirstUpcoming(TodayInstants(now, repo), now, TomorrowFajr(now, repo), n);
  }

  /** At or after the day's last adhan on a well-ordered day: Isha is active
      and the next prayer is tomorrow's Fajr. */
  lemma AfterIsha(now: int, repo: Repository)
    requires DayOf(now) in repo
    requires StrictlyIncreasing(TodayInstants(now, repo))
    requires TodayInstants(now, repo)[5].value <= now
    ensures Resolve(now, repo).next == Some(Catalog[0])
    ensures Resolve(now, repo).nextTime == TomorrowFajr(now, repo)
    ensures Resolve(now, repo).active == Some(Isha)
  {
    var ts := TodayInstants(now, repo);
    forall j | 0 <= j < |ts|
      ensures !Upcoming(ts[j], now)
    {
      if j < 5 {
        IncreasingPairwise(ts, j, 5);
      }
    }
  }

  /** Over increasing instants, when the next entry is an upcoming `n`, the
      active entry `a` is the one just before it. */
  lemma ActiveIndexIn(ts: seq<Option<int>>, now: int, tomorrow: Option<int>, n: nat, a: nat)
    requires |ts| == |Catalog| && StrictlyIncreasing(ts) && n < |ts| && a < |ts|
    requires Upcoming(ts[n], now)
    requires ResolveIn(ts, now, tomorrow).next == Some(Catalog[n])
    requires ResolveIn(ts, now, tomorrow).active == Some(Catalog[a].key)
    ensures a + 1 == n
  {
    var f := ScanNext(ts, now, 0);
    assert f.Some?;
    assert f.value == n by {
      CatalogShape();
      assert Catalog[f.value].key == Catalog[n].key;
    }
    ResolveInAtFirstUpcoming(ts, now, tomorrow, n);
    CatalogShape();
  }

  /** When both are found today on a well-ordered day, the active entry is
      the one immediately before the next entry. */
  lemma ActiveIndexIsNextMinusOne(now: int, repo: Repository, n: nat, a: nat)
    requires DayOf(now) in repo
    requires StrictlyIncreasing(TodayInstants(now, repo))
    requires n < |Catalog| && a < |Catalog|
    requires Resolve(now, repo).next == Some(Catalog[n])
    requires Resolve(now, repo).nextTime == TodayInstants(now, repo)[n]
    requires Resolve(now, repo).active == Some(Catalog[a].key)
    ensures a + 1 == n
  {
    NextIsAhead(now, repo);
    ActiveIndexIn(TodayInstants(now, repo), now, TomorrowFajr(now, repo), n, a);
  }

  // ---------------------------------------------------------------------
  // Friday: the Dhuhr row turns into Jummah 1 or Jummah 2

  /** The two configured Jummah iqamah times ("HH:MM"), slot 1 then slot 2. */
  datatype JummahTimes = JummahTimes(first: string, second: string)

  datatype DhuhrOverride = DhuhrOverride(name: string, iqamah: string, cutoffPassed: bool)

  const NoOverride := DhuhrOverride("Dhuhr", "", false)

  /** Still before the first Jummah's iqamah today: its time reads as a
      time and now is strictly earlier. */
  predicate BeforeCutoff(now: int, first: string) {
    var p := ParseTime(Some(first));
    p.ValidTime? && now < At(DayStart(DayOf(now)), p.minute)
  }

  /** The Friday block. An empty first time is null and leaves the defaults.
      Otherwise the row shows Jummah 1 and its time until the cutoff, and
      Jummah 2 and its time from then on; an unreadable first time is an
      Invalid Date, truthy but never later than now, so it shows Jummah 2. */
  function FridayOverride(now: int, jummah: JummahTimes): (o: DhuhrOverride)
    ensures jummah.first == "" ==> o == NoOverride
    ensures jummah.first != "" ==> (o.cutoffPassed <==> !BeforeCutoff(now, jummah.first))
    ensures jummah.first != "" ==> o.name == (if o.cutoffPassed then "Jummah 2" else "Jummah 1")
    ensures jummah.first != "" ==> o.iqamah == (if o.cutoffPassed then jummah.second else jummah.first)
  {
    match ParseTime(Some(jummah.first))
    case NoTime => NoOverride
    case InvalidTime => DhuhrOverride("Jummah 2", jummah.second, true)
    case ValidTime(m) =>
      if now < At(DayStart(DayOf(now)), m) then DhuhrOverride("Jummah 1", jummah.first, false)
      else DhuhrOverride("Jummah 2", jummah.second, true)
  }

  /** With a readable first time the switch happens exactly at its iqamah
      instant today. */
  lemma JummahSwitchAtCutoff(now: int, jummah: JummahTimes)
    requires ParseTime(Some(jummah.first)).ValidTime?
    ensures FridayOverride(now, jummah).cutoffPassed <==>
      now >= At(DayStart(DayOf(now)), ParseTime(Some(jummah.first)).minute)
  {
  }

  /** Once passed, the cutoff stays passed for the rest of the day. */
  lemma CutoffStaysPassed(now: int, later: int, jummah: JummahTimes)
    requires now <= later && DayOf(now) == DayOf(later)
    requires FridayOverride(now, jummah).cutoffPassed
    ensures FridayOverride(later, jummah).cutoffPassed
    ensures FridayOverride(later, jummah) == FridayOverride(now, jummah)
  {
  }

  /** An unreadable first time never shows Jummah 1. */
  lemma UnreadableFirstShowsJummah2(now: int, second: string)
    ensures FridayOverride(now, JummahTimes("TBA", second)) == DhuhrOverride("Jummah 2", second, true)
  {
    EmptyPiecesReadAsZero();
  }

  /** The override applies only on a Friday with today's schedule loaded. */
  predicate OverrideApplies(now: int, repo: Repository) {
    IsFriday(DayOf(now)) && DayOf(now) in repo
  }

  function DashboardOverride(now: int, repo: Repository, jummah: JummahTimes): (o: DhuhrOverride)
    ensures !OverrideApplies(now, repo) ==> o == NoOverride
    ensures OverrideApplies(now, repo) ==> o == FridayOverride(now, jummah)
    ensures o.cutoffPassed ==> OverrideApplies(now, repo) && o.name == "Jummah 2"
  {
    if OverrideApplies(now, repo) then FridayOverride(now, jummah) else NoOverride
  }

  // ---------------------------------------------------------------------
  // The six displayed rows

  datatype Row = Row(key: PrayerKey, name: string, icon: string, adhan: string, iqamah: string, isActive: bool)

  /** `value || fallback` on a possibly-null string. */
  function OrElse(s: Option<string>, fallback: string): (r: string)
    ensures s.Some? && s.value != "" ==> r == s.value
    ensures s.None? || s.value == "" ==> r == fallback
  {
    if s.Some? && s.value != "" then s.value else fallback
  }

  function StoredAdhan(d: StoredDay, k: PrayerKey): Option<string> {
    match k
    case Fajr => d.fajr.adhan
    case Shuruq => d.shuruq
    case Dhuhr => d.dhuhr.adhan
    case Asr => d.asr.adhan
    case Maghrib => d.maghrib.adhan
    case Isha => d.isha.adhan
  }

  function StoredJamat(d: StoredDay, k: PrayerKey): Option<string> {
    match k
    case Fajr => d.fajr.jamat
    case Shuruq => None
    case Dhuhr => d.dhuhr.jamat
    case Asr => d.asr.jamat
    case Maghrib => d.maghrib.jamat
    case Isha => d.isha.jamat
  }

  /** One row of a day whose schedule is present. */
  function DayRow(e: CatalogEntry, d: StoredDay, friday: bool, o: DhuhrOverride, active: Option<PrayerKey>): (row: Row)
    ensures row.key == e.key && row.icon == e.icon
    ensures row.adhan == OrElse(StoredAdhan(d, e.key), "--:--")
    ensures e.key == Shuruq ==> row.iqamah == ""
    ensures row.isActive <==> active == Some(e.key)
    ensures !(friday && e.key == Dhuhr) ==> row.name == e.name
    ensures !friday && e.key != Shuruq ==> row.iqamah == OrElse(StoredJamat(d, e.key), "")
    ensures friday && e.key == Dhuhr ==> row.name == o.name && row.iqamah == OrElse(Some(o.iqamah), "")
  {
    var isDhuhrOverride := friday && e.key == Dhuhr;
    var name := if isDhuhrOverride then o.name else e.name;
    var iqamah := if isDhuhrOverride then o.iqamah else if e.key == Shuruq then "" else OrElse(StoredJamat(d, e.key), "");
    Row(e.key, name, e.icon, OrElse(StoredAdhan(d, e.key), "--:--"), OrElse(Some(iqamah), ""), active == Some(e.key))
  }

  datatype Render = TypeError | Rows(rows: seq<Row>)

  /** The row mapping exactly as written: it reads the day's fields for every
      row, so a day missing from the table throws before anything is drawn. */
  function RenderRowsAsWritten(today: Option<StoredDay>, friday: bool, o: DhuhrOverride, active: Option<PrayerKey>): (r: Render)
    ensures today.Some? ==> r.Rows? && |r.rows| == |Catalog|
    ensures today.Some? ==> forall i :: 0 <= i < |Catalog| ==> r.rows[i] == DayRow(Catalog[i], today.value, friday, o, active)
    ensures today.None? ==> r == TypeError
  {
    match today
    case None => TypeError
    case Some(d) => Rows(seq(|Catalog|, i requires 0 <= i < |Catalog| => DayRow(Catalog[i], d, friday, o, active)))
  }

  lemma MissingDayThrows(friday: bool, o: DhuhrOverride, active: Option<PrayerKey>)
    ensures RenderRowsAsWritten(None, friday, o, active) == TypeError
  {
  }

  /** The placeholder row shown while there is no schedule for today. */
  function PlaceholderRow(e: CatalogEntry): (row: Row)
    ensures row.key == e.key && row.name == e.name && row.adhan == "--:--" && row.iqamah == "" && !row.isActive
  {
    Row(e.key, e.name, e.icon, "--:--", "", false)
  }

  /** The rows as the missing-day case evidently intends: placeholders
      instead of a crash, and exactly the as-written rows otherwise. */
  function RenderRows(today: Option<StoredDay>, friday: bool, o: DhuhrOverride, active: Option<PrayerKey>): (rows: seq<Row>)
    ensures |rows| == |Catalog|
    ensures forall i :: 0 <= i < |rows| ==> rows[i].key == Catalog[i].key && rows[i].icon == Catalog[i].icon
    ensures today.None? ==> forall i :: 0 <= i < |rows| ==> rows[i].adhan == "--:--" && rows[i].iqamah == ""
    ensures today.Some? ==> RenderRowsAsWritten(today, friday, o, active) == Rows(rows)
  {
    match today
    case None => seq(|Catalog|, i requires 0 <= i < |Catalog| => PlaceholderRow(Catalog[i]))
    case Some(d) => RenderRowsAsWritten(today, friday, o, active).rows
  }

  /** The Friday override changes the Dhuhr row's name and iqamah only: every
      other row, and the Dhuhr row's adhan, are the same as on any other day. */
  lemma OverrideTouchesOnlyDhuhr(d: StoredDay, o: DhuhrOverride, active: Option<PrayerKey>)
    ensures
      var plain := RenderRows(Some(d), false, o, active);
      var friday := RenderRows(Some(d), true, o, active);
      && (forall i :: 0 <= i < |Catalog| && i != DhuhrIndex ==> friday[i] == plain[i])
      && friday[DhuhrIndex].adhan == plain[DhuhrIndex].adhan
      && friday[DhuhrIndex].name == o.name
      && friday[DhuhrIndex].iqamah == OrElse(Some(o.iqamah), "")
  {
    var plain := RenderRows(Some(d), false, o, active);
    var friday := RenderRows(Some(d), true, o, active);
    forall i | 0 <= i < |Catalog| && i != DhuhrIndex
      ensures friday[i] == plain[i]
    {
      assert Catalog[i].key != Dhuhr;
    }
  }

  // ---------------------------------------------------------------------
  // The whole screen

  datatype Dashboard = Dashboard(resolution: Resolution, rows: seq<Row>, countdownName: string, countdownTarget: Option<int>)

  function View(now: int, repo: Repository, jummah: JummahTimes): (v: Dashboard)
    ensures |v.rows| == |Catalog|
    ensures v.countdownTarget == Resolve(now, repo).nextTime
    ensures DayOf(now) !in repo ==> v.countdownName == "--" && v.countdownTarget.None?
    ensures DayOf(now) in repo ==> v.countdownName == Resolve(now, repo).next.value.name
    ensures forall i :: 0 <= i < |v.rows| ==> (v.rows[i].isActive <==> Resolve(now, repo).active == Some(Catalog[i].key))
    // today present: row i is the day's row, with the Friday override when it applies
    ensures DayOf(now) in repo ==> forall i :: 0 <= i < |Catalog| ==>
      v.rows[i] == DayRow(Catalog[i], repo[DayOf(now)], OverrideApplies(now, repo), DashboardOverride(now, repo, jummah), Resolve(now, repo).active)
    // today missing: placeholder rows
    ensures DayOf(now) !in repo ==> forall i :: 0 <= i < |Catalog| ==> v.rows[i] == PlaceholderRow(Catalog[i])
  {
    CatalogNamesNonEmpty();
    var day := DayOf(now);
    var res := Resolve(now, repo);
    var today := if day in repo then Some(repo[day]) else None;
    var rows := RenderRows(today, OverrideApplies(now, repo), DashboardOverride(now, repo, jummah), res.active);
    var name := if res.next.Some? && res.next.value.name != "" then res.next.value.name else "--";
    Dashboard(res, rows, name, res.nextTime)
  }

  /** On a Friday with today's entry the screen's Dhuhr row reads "Jummah 1"
      with the first time while now is before that time today, and
      "Jummah 2" with the second time from then on (and whenever the first
      time is unreadable); with no first time it reads "Dhuhr" and no
      iqamah. */
  lemma FridayDhuhrRow(now: int, repo: Repository, jummah: JummahTimes)
    requires OverrideApplies(now, repo)
    ensures jummah.first != "" && BeforeCutoff(now, jummah.first) ==>
      View(now, repo, jummah).rows[DhuhrIndex].name == "Jummah 1" &&
      View(now, repo, jummah).rows[DhuhrIndex].iqamah == jummah.first
    ensures jummah.first != "" && !BeforeCutoff(now, jummah.first) ==>
      View(now, repo, jummah).rows[DhuhrIndex].name == "Jummah 2" &&
      View(now, repo, jummah).rows[DhuhrIndex].iqamah == OrElse(Some(jummah.second), "")
    ensures jummah.first == "" ==>
      View(now, repo, jummah).rows[DhuhrIndex].name == "Dhuhr" &&
      View(now, repo, jummah).rows[DhuhrIndex].iqamah == ""
  {
    var o := DashboardOverride(now, repo, jummah);
    assert o == FridayOverride(now, jummah);
    assert View(now, repo, jummah).rows[DhuhrIndex] == DayRow(Catalog[DhuhrIndex], repo[DayOf(now)], true, o, Resolve(now, repo).active);
    DhuhrDayRow(repo[DayOf(now)], true, o, Resolve(now, repo).active);
  }

  /** On any day but Friday the Dhuhr row keeps its own name and iqamah,
      whatever the Jummah configuration says. */
  lemma PlainDhuhrRow(now: int, repo: Repository, jummah: JummahTimes)
    requires DayOf(now) in repo && !IsFriday(DayOf(now))
    ensures View(now, repo, jummah).rows[DhuhrIndex].name == "Dhuhr"
    ensures View(now, repo, jummah).rows[DhuhrIndex].iqamah == OrElse(repo[DayOf(now)].dhuhr.jamat, "")
  {
    assert !OverrideApplies(now, repo);
    var o := DashboardOverride(now, repo, jummah);
    var row := DayRow(Catalog[DhuhrIndex], repo[DayOf(now)], false, o, Resolve(now, repo).active);
    assert View(now, repo, jummah).rows[DhuhrIndex] == row;
    DhuhrDayRow(repo[DayOf(now)], false, o, Resolve(now, repo).active);
  }

  /** The Dhuhr row of a present day, with and without the Friday override. */
  lemma DhuhrDayRow(d: StoredDay, friday: bool, o: DhuhrOverride, active: Option<PrayerKey>)
    ensures !friday ==> DayRow(Catalog[DhuhrIndex], d, friday, o, active).name == "Dhuhr"
    ensures !friday ==> DayRow(Catalog[DhuhrIndex], d, friday, o, active).iqamah == OrElse(d.dhuhr.jamat, "")
    ensures friday ==> DayRow(Catalog[DhuhrIndex], d, friday, o, active).name == o.name
    ensures friday ==> DayRow(Catalog[DhuhrIndex], d, friday, o, active).iqamah == OrElse(Some(o.iqamah), "")
  {
    CatalogShape();
  }

  /** Nothing is left today and the fallback reads a tomorrow Fajr adhan
      that is present but not a time: the Invalid Date it becomes is truthy,
      so it reaches the countdown, where turning it into ISO text throws. */
  predicate UnreadableTomorrowFajr(now: int, repo: Repository) {
    DayOf(now) in repo && ScanNext(TodayInstants(now, repo), now, 0).None? &&
    DayOf(now) + 1 in repo && ParseTime(repo[DayOf(now) + 1].fajr.adhan).InvalidTime?
  }

  /** What the dashboard component produces: a screen, or the error that
      aborts rendering. */
  datatype Outcome = Crash(error: string) | Shown(dashboard: Dashboard)

  /** The screen as written: it aborts when today has no entry (the row
      loop reads a field of undefined) and when the countdown receives an
      Invalid Date; otherwise it is exactly the corrected screen. */
  function ViewAsWritten(now: int, repo: Repository, jummah: JummahTimes): (s: Outcome)
    ensures s.Shown? <==> DayOf(now) in repo && !UnreadableTomorrowFajr(now, repo)
    ensures DayOf(now) !in repo ==> s == Crash("TypeError")
    ensures UnreadableTomorrowFajr(now, repo) ==> s == Crash("RangeError")
    ensures s.Shown? ==> s.dashboard == View(now, repo, jummah)
  {
    if UnreadableTomorrowFajr(now, repo) then Crash("RangeError")
    else
      var day := DayOf(now);
      var res := Resolve(now, repo);
      var today := if day in repo then Some(repo[day]) else None;
      match RenderRowsAsWritten(today, OverrideApplies(now, repo), DashboardOverride(now, repo, jummah), res.active)
      case TypeError => Crash("TypeError")
      case Rows(rows) =>
        var name := if res.next.Some? && res.next.value.name != "" then res.next.value.name else "--";
        Shown(Dashboard(res, rows, name, res.nextTime))
  }

  /** A stored day with no times and no Hijri label. */
  const BlankDay := StoredDay(StoredSlot(None, None), None, StoredSlot(None, None), StoredSlot(None, None),
    StoredSlot(None, None), StoredSlot(None, None), None)

  /** On a day with nothing stored, nothing is upcoming. */
  lemma BlankDayHasNothingUpcoming(now: int, repo: Repository)
    requires DayOf(now) in repo && repo[DayOf(now)] == BlankDay
    ensures ScanNext(TodayInstants(now, repo), now, 0).None?
  {
    var ts := TodayInstants(now, repo);
    forall k | 0 <= k < |ts|
      ensures ts[k].None?
    {
      assert ts[k] == AnchoredAdhan(Load(BlankDay), DayStart(DayOf(now)), Catalog[k].key);
    }
  }

  /** A blank day followed by a day whose Fajr adhan reads "TBA": at
      midnight nothing is upcoming, the fallback reads "TBA", and the
      screen as written throws. */
  lemma UnreadableTomorrowFajrThrows(jummah: JummahTimes)
    ensures ViewAsWritten(0, map[0 := BlankDay, 1 := BlankDay.(fajr := StoredSlot(Some("TBA"), None))], jummah) == Crash("RangeError")
  {
    var repo := map[0 := BlankDay, 1 := BlankDay.(fajr := StoredSlot(Some("TBA"), None))];
    BlankDayHasNothingUpcoming(0, repo);
    EmptyPiecesReadAsZero();
    assert repo[1].fajr.adhan == Some("TBA");
    assert UnreadableTomorrowFajr(0, repo);
  }

  /** The override never reaches the resolution: the countdown and the
      highlighted row come from the standard adhan times whatever the Jummah
      configuration says. */
  lemma JummahDoesNotMoveResolution(now: int, repo: Repository, j1: JummahTimes, j2: JummahTimes)
    ensures View(now, repo, j1).resolution == View(now, repo, j2).resolution
    ensures View(now, repo, j1).countdownTarget == View(now, repo, j2).countdownTarget
  {
  }
}
