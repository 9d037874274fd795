/** The daily timetable and the fixed prayer catalog.

    `StoredDay` is the shape of one entry of the imported JSON table (times as
    "HH:MM" strings, null where the sheet had no value); `DailySchedule` is the
    same entry after every time has been parsed to minutes of the day, which is
    what the screens compute with. */
module Schedule {
  import opened Wrappers
  import opened Clock

  datatype StoredSlot = StoredSlot(adhan: Option<string>, jamat: Option<string>)

  datatype StoredDay = StoredDay(
    fajr: StoredSlot,
    shuruq: Option<string>,
    dhuhr: StoredSlot,
    asr: StoredSlot,
    maghrib: StoredSlot,
    isha: StoredSlot,
    hijri: Option<string>)

  /** The imported table, keyed by local day number. */
  type Repository = map<int, StoredDay>

  datatype Slot = Slot(adhan: Option<nat>, jamat: Option<nat>)

  datatype DailySchedule = DailySchedule(
    fajr: Slot,
    shuruq: Option<nat>,
    dhuhr: Slot,
    asr: Slot,
    maghrib: Slot,
    isha: Slot)

  function LoadSlot(s: StoredSlot): (r: Slot)
    ensures s.adhan.None? ==> r.adhan.None?
    ensures s.jamat.None? ==> r.jamat.None?
  {
    Slot(ParseMinutes(s.adhan), ParseMinutes(s.jamat))
  }

  /** Parses every stored time; a missing or empty string becomes None. */
  function Load(d: StoredDay): (r: DailySchedule)
    ensures d.shuruq.None? ==> r.shuruq.None?
    ensures d.fajr.adhan.None? ==> r.fajr.adhan.None?
  {
    DailySchedule(LoadSlot(d.fajr), ParseMinutes(d.shuruq), LoadSlot(d.dhuhr),
                  LoadSlot(d.asr), LoadSlot(d.maghrib), LoadSlot(d.isha))
  }

  datatype PrayerKey = Fajr | Shuruq | Dhuhr | Asr | Maghrib | Isha

  datatype CatalogEntry = CatalogEntry(key: PrayerKey, name: string, icon: string, isSunrise: bool)

  /** `prayersList`: display order, which is also the order both scans use. */
  const Catalog: seq<CatalogEntry> := [
    CatalogEntry(Fajr, "Fajr", "wb_twilight", false),
    CatalogEntry(Shuruq, "Shuruq", "light_mode", true),
    CatalogEntry(Dhuhr, "Dhuhr", "sunny", false),
    CatalogEntry(Asr, "Asr", "wb_sunny", false),
    CatalogEntry(Maghrib, "Maghrib", "wb_twilight", false),
    CatalogEntry(Isha, "Isha", "bedtime", false)
  ]

  const DhuhrIndex: nat := 2

  lemma CatalogShape()
    ensures |Catalog| == 6
    ensures forall i, j :: 0 <= i < j < |Catalog| ==> Catalog[i].key != Catalog[j].key
    ensures forall i :: 0 <= i < |Catalog| ==> (Catalog[i].isSunrise <==> Catalog[i].key == Shuruq)
    ensures Catalog[0].key == Fajr && Catalog[DhuhrIndex].key == Dhuhr
  {
  }

  /** Every catalog entry has a name to show. */
  lemma CatalogNamesNonEmpty()
    ensures forall e :: e in Catalog ==> e.name != ""
  {
  }

  /** The time a prayer "starts": Shuruq's single time, otherwise the adhan. */
  function AdhanMinutes(d: DailySchedule, k: PrayerKey): Option<nat> {
    match k
    case Fajr => d.fajr.adhan
    case Shuruq => d.shuruq
    case Dhuhr => d.dhuhr.adhan
    case Asr => d.asr.adhan
    case Maghrib => d.maghrib.adhan
    case Isha => d.isha.adhan
  }

  function AnchoredAdhan(d: DailySchedule, dayStart: int, k: PrayerKey): Option<int> {
    match AdhanMinutes(d, k)
    case None => None
    case Some(m) => Some(At(dayStart, m))
  }

  /** The adhan instants of one day in catalog order. */
  function AdhanInstants(d: DailySchedule, dayStart: int): (r: seq<Option<int>>)
    ensures |r| == |Catalog|
    ensures forall i :: 0 <= i < |r| ==> r[i] == AnchoredAdhan(d, dayStart, Catalog[i].key)
  {
    seq(|Catalog|, i requires 0 <= i < |Catalog| => AnchoredAdhan(d, dayStart, Catalog[i].key))
  }

  /** The ordering the screens take for granted (the resolver never
      re-sorts): every start time present and strictly increasing in catalog
      order. */
  predicate WellOrdered(d: DailySchedule) {
    && d.fajr.adhan.Some? && d.shuruq.Some? && d.dhuhr.adhan.Some?
    && d.asr.adhan.Some? && d.maghrib.adhan.Some? && d.isha.adhan.Some?
    && d.fajr.adhan.value < d.shuruq.value < d.dhuhr.adhan.value
       < d.asr.adhan.value < d.maghrib.adhan.value < d.isha.adhan.value
  }

  /** The same ordering stated on a sequence of instants. */
  predicate StrictlyIncreasing(ts: seq<Option<int>>) {
    && (forall i :: 0 <= i < |ts| ==> ts[i].Some?)
    && (forall i :: 0 <= i < |ts| - 1 ==> ts[i].value < ts[i + 1].value)
  }

  lemma {:induction false} IncreasingPairwise(ts: seq<Option<int>>, i: nat, j: nat)
    requires StrictlyIncreasing(ts) && i < j < |ts|
    ensures ts[i].value < ts[j].value
    decreases j - i
  {
    if i + 1 < j {
      IncreasingPairwise(ts, i + 1, j);
    }
  }

  /** Anchoring a well-ordered day to any day start keeps it ordered. */
  lemma AnchoringPreservesOrder(d: DailySchedule, dayStart: int)
    requires WellOrdered(d)
    ensures StrictlyIncreasing(AdhanInstants(d, dayStart))
  {
    var ts := AdhanInstants(d, dayStart);
    forall i | 0 <= i < |ts| - 1
      ensures ts[i].value < ts[i + 1].value
    {
      var a := AdhanMinutes(d, Catalog[i].key).value;
      var b := AdhanMinutes(d, Catalog[i + 1].key).value;
      assert a < b;
      assert a * MsPerMinute < b * MsPerMinute;
    }
  }
}
