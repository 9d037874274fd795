# Prayer-time display: a Dafny model

A model of the timing logic of a mosque prayer-time display. The pieces are:

- **Dashboard** (`Resolver`): for a moment `now` and the imported timetable, it resolves
  - the next prayer, which is the countdown target, with tomorrow's Fajr as the fallback;
  - the active prayer, which is the highlighted row;
  - the Friday override that turns the Dhuhr row into Jummah 1 or Jummah 2 at the first Jummah's iqamah time;
  - the six table rows.
- **Smart-alarm page** (`SmartAlarm`):
  - the morning alarm in its three modes: after Fajr, before Shuruq, before the Fajr jamat;
  - the pre-Fajr advisory;
  - the bedtime alarm, capped at midnight;
  - the sleep and Fajr-to-Shuruq figures;
  - the 12-hour display.
- **Countdown widget** (`Countdown`): the hours/minutes/seconds fields, the last-four-seconds window, and the clock-tick or flash cue.
- **Spreadsheet import script** (`Importer`):
  - seconds to "HH:MM", with afternoon columns forced to PM;
  - month sheet names and "YYYY-MM-DD" keys;
  - the record written per row;
  - last-row-wins assembly of the table.
- **Prayer card's icon lookup** (`PrayerIcons`).

Shared modules:

- `Wrappers` (Option).
- `Text`: decimal rendering and parsing, `padStart(2, '0')`, `split`, `parseInt`, ASCII lower-casing, `includes`.
- `Clock`: "HH:MM" parsing, days and weekdays of millisecond instants, `setHours`.
- `Schedule`: the stored and parsed timetable, the fixed prayer catalog, and the ordering the screens assume.

Modelling choices:

- **Instants.** Dashboard instants are integer milliseconds. Local day `d` starts at `d * 86400000`. The timetable is keyed by day number.
- **Smart-alarm times.** These are integer minutes from today's midnight. Every input there is a whole-minute schedule time plus a whole-minute slider offset.
- **Timetable entries.** Stored times are kept in their JSON shape: nullable "HH:MM" strings. They are parsed where the screens parse them.
- **Time strings.** `parseTime` returns null only for an absent or empty string. Otherwise it splits at ":" and converts the first two pieces with `Number`. An empty piece reads as 0, so "12:" is noon and ":30" is 00:30. A string without a colon, or with a non-digit character in either piece, becomes an Invalid Date. An Invalid Date is truthy but compares false with every instant. `Clock.ParseTime` keeps these three outcomes apart.
- **Clamp (smart-alarm page).** The code evaluates `Math.min(Math.max(lo, v), hi)`. The upper bound is applied last, so on an empty range (`lo > hi`) the result is `hi` (`SmartAlarm.Clamp`). With a Fajr-to-Shuruq gap under 20 minutes, the before-Shuruq alarm is therefore exactly Fajr.
- **Bedtime (smart-alarm page).** The code caps the bedtime offset at the slider's maximum with `Math.min` and applies no lower bound. A negative offset therefore puts the alarm before Isha.
- **Dashboard icons.** The dashboard table gives Maghrib the "wb_twilight" icon, while the card lookup gives it "dark_mode". `PrayerIcons.CatalogIcons` states that this is the only disagreement.

## Model

| member | source | states |
|---|---|---|
| Clock.ParseHhmm | app/components/dashboard/DashboardClient.tsx:43-49 | splitting a zero-padded "HH:MM" at the colon and reading both numbers recovers exactly the hour and minute that were written |
| Clock.ParseClock | app/components/dashboard/DashboardClient.tsx:44 | splitting at the colon gives a clock time exactly when there is a colon and the first two pieces consist of digits (an empty piece reading as 0); the hour and minute are those pieces' values |
| Clock.ParseTime | app/components/dashboard/DashboardClient.tsx:42-48 | no time exactly for an absent or empty string; a valid time exactly when the string splits into a clock time, at its minute of the day; every other string is an Invalid Date |
| Clock.EmptyPiecesReadAsZero | app/components/dashboard/DashboardClient.tsx:44 | "12:" reads as noon and ":30" as 00:30, while "TBA" is an Invalid Date |
| Clock.ParseMinutesHhmm | app/smart-alarm/page.tsx:38-44 | `parseTime` of an importer-written time yields the minute of the day hour*60+minute |
| Clock.DayOfBounds | app/components/dashboard/DashboardClient.tsx:38-39 | every instant lies in the local day it is looked up under: from that day's start to before the next day's start |
| Clock.FridayEveryWeek | app/components/dashboard/DashboardClient.tsx:40 | the `getDay() === 5` test recurs every seven days and never holds on two consecutive days |
| Schedule.CatalogShape | app/components/dashboard/DashboardClient.tsx:52-59 | the prayer list has six entries with distinct keys, Fajr first and Dhuhr third, and only Shuruq is marked as sunrise |
| Schedule.AnchoringPreservesOrder | app/components/dashboard/DashboardClient.tsx:129 | a day whose six start times are present and increasing stays strictly increasing once anchored to any day, which is the ordering both scans rely on |
| Resolver.ScanNext | app/components/dashboard/DashboardClient.tsx:97-113 | the forward scan returns the first entry whose time is known and strictly after now, or none when no such entry exists |
| Resolver.ScanActive | app/components/dashboard/DashboardClient.tsx:130-139 | the reverse scan returns the last entry whose time is known and at or before now, or none when nothing has started |
| Resolver.TomorrowFajr | app/components/dashboard/DashboardClient.tsx:115-123 | a fallback target exists exactly when tomorrow has an entry whose Fajr adhan reads as a time, and it is that adhan minute anchored to tomorrow's start |
| Resolver.Resolve | app/components/dashboard/DashboardClient.tsx:91-141 | no entry for today leaves next, target and active all null; otherwise next is the first upcoming prayer with its time, or Fajr at tomorrow's time (null when tomorrow is absent); active is the last started prayer, and none before the first start of the day |
| Resolver.NextIsAhead | app/components/dashboard/DashboardClient.tsx:108-123 | whenever a countdown target exists it is strictly after now |
| Resolver.ActiveJustBeforeNext | app/components/dashboard/DashboardClient.tsx:126-139 | on a well-ordered day, the prayer before the first upcoming one is active, or nothing is active when Fajr is next; an adhan exactly at now counts as started, not upcoming |
| Resolver.AfterIsha | app/components/dashboard/DashboardClient.tsx:114-124 | once Isha has started on a well-ordered day, Isha is active and the next prayer is tomorrow's Fajr |
| Resolver.ActiveIndexIsNextMinusOne | app/components/dashboard/DashboardClient.tsx:126-129 | when both are found today on a well-ordered day, the active prayer sits immediately before the next prayer in the list |
| Resolver.FridayOverride | app/components/dashboard/DashboardClient.tsx:69-86 | an empty first Jummah time keeps the defaults; otherwise the cutoff is passed exactly when now is not strictly before a readable first time's iqamah today, and the row then reads "Jummah 2" with the second time, else "Jummah 1" with the first; an unreadable first time therefore always gives Jummah 2 |
| Resolver.JummahSwitchAtCutoff | app/components/dashboard/DashboardClient.tsx:71-84 | with a readable first time the switch to Jummah 2 happens exactly at that time's instant on the current day |
| Resolver.CutoffStaysPassed | app/components/dashboard/DashboardClient.tsx:74-84 | once the cutoff has passed, every later moment of the same day shows the same Jummah 2 override |
| Resolver.UnreadableFirstShowsJummah2 | app/components/dashboard/DashboardClient.tsx:71-84 | a first Jummah time such as "TBA" is a truthy Invalid Date that is never after now, so the row shows "Jummah 2" with the second time from the start of the day |
| Resolver.DashboardOverride | app/components/dashboard/DashboardClient.tsx:66-88 | the override is the Friday override exactly when it is Friday and today's entry exists, and the default otherwise; a passed cutoff always means a Friday showing "Jummah 2" |
| Resolver.OrElse | app/components/dashboard/DashboardClient.tsx:236 | the or-fallback on a display string yields a present non-empty value itself, and the fallback for an absent or empty value |
| Resolver.DayRow | app/components/dashboard/DashboardClient.tsx:194-242 | a row keeps its prayer's key and icon, shows the stored adhan or "--:--", shows no iqamah for Shuruq and otherwise the stored jamat or nothing, is active exactly when its key is the active key, and only the Friday Dhuhr row takes the override's name and iqamah |
| Resolver.RenderRowsAsWritten | app/components/dashboard/DashboardClient.tsx:194-242 | with today's entry present the mapping yields one row per prayer, row i being prayer i's row for that day; without it the mapping throws |
| Resolver.MissingDayThrows | app/components/dashboard/DashboardClient.tsx:196 | with no entry for today the row mapping fails, because the first row reads a field of an undefined entry |
| Resolver.RenderRows | app/components/dashboard/DashboardClient.tsx:194-242 | six rows in prayer order; with today present they equal the as-written rows, and without it every row shows "--:--" and an empty iqamah |
| Resolver.OverrideTouchesOnlyDhuhr | app/components/dashboard/DashboardClient.tsx:202-207 | switching Friday on changes only the Dhuhr row's name and iqamah; its adhan and every other row are unchanged |
| Resolver.View | app/components/dashboard/DashboardClient.tsx:178-210 | the corrected screen, which shows placeholder rows instead of failing when today is missing. The countdown gets the resolved target and the resolved prayer's name, or "--" with no target when today is missing. With today present, row i is that day's row for prayer i, with the Friday override exactly when it applies; without it, row i is prayer i's placeholder. Row i is highlighted exactly when prayer i is the active one |
| Resolver.FridayDhuhrRow | app/components/dashboard/DashboardClient.tsx:66-88 | on a Friday with today's entry, the screen's Dhuhr row reads "Jummah 1" with the first time while now is before that time today, and "Jummah 2" with the second time from then on or when the first time is unreadable; with no first time it reads "Dhuhr" and shows no iqamah |
| Resolver.PlainDhuhrRow | app/components/dashboard/DashboardClient.tsx:197-207 | on any day but Friday, the screen's Dhuhr row keeps the name "Dhuhr" and the stored Dhuhr jamat, whatever the Jummah times are |
| Resolver.ViewAsWritten | app/components/dashboard/DashboardClient.tsx:113-196 | the component as written renders exactly when today has an entry and the tomorrow fallback does not hit an unreadable Fajr adhan; a missing day throws a TypeError, an unreadable tomorrow Fajr makes `toISOString` throw a RangeError, and whenever it renders it shows exactly the corrected screen |
| Resolver.UnreadableTomorrowFajrThrows | app/components/dashboard/DashboardClient.tsx:115-123 | after an empty day, a next day whose Fajr adhan is "TBA" makes the screen as written throw a RangeError |
| Resolver.JummahDoesNotMoveResolution | app/components/dashboard/DashboardClient.tsx:95-103 | the Jummah configuration never changes the next or active prayer or the countdown target, which follow the standard adhan times |
| SmartAlarm.Clamp | app/smart-alarm/page.tsx:152-153 | the result never exceeds hi; it is at least lo when lo <= hi; it is v when v is in range, hi when v is above hi, lo when v is below a non-empty range, and hi when the range is empty |
| SmartAlarm.MorningAlarm | app/smart-alarm/page.tsx:130-178 | no alarm without Fajr and Shuruq, or in before-jamat mode without a jamat; after-Fajr stays within [Fajr, max(Fajr, Shuruq-20)]; before-Shuruq stays within [Fajr, Shuruq-20] when the gap allows, else is Fajr; before-jamat stays 10 to 180 minutes before the jamat; the slider range is [0, max(0, gap-20)], [20, gap] and [10, 180] in the three modes; an in-range offset is used exactly, one below the range gives Fajr, Shuruq-20 and jamat-10, and one above it gives Fajr+max, Fajr and jamat-180; the advisory is raised exactly when a before-jamat alarm precedes the Fajr adhan |
| SmartAlarm.NextMidnight | app/smart-alarm/page.tsx:186-188 | `setHours(24, 0, 0, 0)` gives the first midnight strictly after the time, at most a day later |
| SmartAlarm.BedtimeAlarm | app/smart-alarm/page.tsx:180-195 | no alarm without Isha; the slider's maximum reaches exactly the next midnight, the alarm never passes it, an offset within the maximum is used exactly and a larger one gives midnight, and the alarm is at or after Isha exactly when the offset is non-negative |
| SmartAlarm.SplitMinutes | app/smart-alarm/page.tsx:215-217 | floor hours and a truncating remainder split a non-negative total exactly with minutes in 0..59; for a negative total that is not whole hours the pair adds up to one hour less than the total |
| SmartAlarm.SleepDuration | app/smart-alarm/page.tsx:197-219 | a figure exists exactly when both alarms do; it is the split of the minutes from the bedtime alarm to the morning alarm moved to tomorrow, which has minutes 0..59 when that total is not negative |
| SmartAlarm.FajrShuruqGap | app/smart-alarm/page.tsx:280-288 | a figure exists exactly when Fajr and Shuruq do; it is the split of the minutes from Fajr to Shuruq, which has minutes 0..59 when Fajr is not after Shuruq |
| SmartAlarm.DurationText | app/smart-alarm/page.tsx:202-218 | the placeholder "--h --m" is shown exactly when there is no figure, and the shown text reads back as the figure it was written from; the reader ignores characters after each number, so this pins the numbers shown and not every character of the text |
| SmartAlarm.ParseDurationOfText | app/smart-alarm/page.tsx:218 | the text `${h}h ${m}m` reads back as exactly the hours and minutes it was written from, negative values included |
| SmartAlarm.FormatAmPm | app/smart-alarm/page.tsx:261-270 | no time shows "--:--" and "--"; otherwise the mark is "PM" exactly from noon on and "AM" before, and the time is five characters with the colon third |
| SmartAlarm.To24OfHour12 | app/smart-alarm/page.tsx:265-267 | the 12-hour hour is in 1..12 (0 shown as 12), and with the AM/PM mark it gives back the 24-hour hour |
| SmartAlarm.AmPmRoundTrip | app/smart-alarm/page.tsx:261-270 | the 12-hour text parses, its hour is in 1..12, its minute is the instant's minute, and with the mark it gives back the minute of the day |
| SmartAlarm.ScreenOf | app/smart-alarm/page.tsx:117-288 | the morning alarm is computed from the day's Fajr adhan, Shuruq and Fajr jamat, the bedtime alarm from its Isha adhan, and the gap text from Fajr and Shuruq; the sleep text and both 12-hour displays are derived from the two alarms |
| SmartAlarm.SmartAlarmScreen | app/smart-alarm/page.tsx:117-288 | no entry for today is the loading state; otherwise the screen is the one computed from today's parsed entry, with the alarms reading the stored times named above; the sleep text is the placeholder exactly when an alarm is missing, and the morning display is blank exactly when there is no morning alarm |
| SmartAlarm.ScreenReadsTodaysTimes | app/smart-alarm/page.tsx:117-219 | after Fajr, with both offsets inside their sliders' ranges, the morning alarm is the day's Fajr adhan plus the offset and the bedtime alarm its Isha adhan plus the offset, and the sleep figure runs from the bedtime alarm to the next morning's alarm |
| SmartAlarm.AfterFajrExample | app/smart-alarm/page.tsx:138-144 | with Fajr 05:00 and Shuruq 06:30, an over-large offset after Fajr is capped at 70 minutes, giving 06:10 |
| SmartAlarm.BeforeShuruqExamples | app/smart-alarm/page.tsx:146-154 | before Shuruq, a 5-minute offset is raised to 20 (06:10), and an offset past the gap is cut to the gap (05:00) |
| SmartAlarm.BeforeJamatExample | app/smart-alarm/page.tsx:156-177 | 150 minutes before a 05:30 jamat is 03:00, before the 05:00 adhan, so the advisory is raised |
| SmartAlarm.SleepExample | app/smart-alarm/page.tsx:204-218 | from a 21:30 bedtime to a 05:20 morning alarm the figure is 7 hours 50 minutes |
| Countdown.PartsOf | app/components/dashboard/CountdownWidget.tsx:72-74 | hours below 24, minutes and seconds below 60, and together they rebuild the whole seconds of the gap modulo a day |
| Countdown.UpdateCountdown | app/components/dashboard/CountdownWidget.tsx:60-84 | no target keeps the previous fields; a reached target shows "00" three times; otherwise three two-digit fields whose values rebuild the seconds left modulo a day |
| Countdown.CountdownExactWithinDay | app/components/dashboard/CountdownWidget.tsx:65-74 | for a gap under a day the fields add up to exactly the whole seconds left |
| Countdown.LastFourSecondsIff | app/components/dashboard/CountdownWidget.tsx:28-32 | a reached target never cues; otherwise the cue window holds exactly when 1 to 4 whole seconds remain, modulo a day |
| Countdown.ChosenSound | app/components/dashboard/CountdownWidget.tsx:36-44 | a saved non-empty preference for the prayer is used as is; with no preferences, no entry for the prayer, or an empty one, the sound is "Makkah" |
| Countdown.SavedPreferenceCues | app/components/dashboard/CountdownWidget.tsx:24-53 | on a new seconds value in the last four seconds, a saved "Clock Sound" ticks and a saved "Silent" flashes, while a prayer with no saved preference gets no cue |
| Countdown.CueFor | app/components/dashboard/CountdownWidget.tsx:46-53 | the clock tick plays exactly for "Clock Sound" and the screen flashes exactly for "Silent" |
| Countdown.OnTick | app/components/dashboard/CountdownWidget.tsx:24-56 | a cue is given only on a new seconds value inside the last four seconds, and then it is the chosen sound's cue; the seconds value is always remembered |
| Countdown.DefaultNeverCues | app/components/dashboard/CountdownWidget.tsx:37-53 | with no saved preferences the default sound neither ticks nor flashes |
| Countdown.ZeroTargetExample | app/components/dashboard/CountdownWidget.tsx:67-70 | a target equal to now, or a second in the past, shows all zeros |
| Importer.Reading | scripts/import-prayers.js:17-19 | whole hours and leftover minutes that bracket the second count within a minute; the hour reaches 24 exactly for a fraction that rounds to a full day |
| Importer.ClockOf | scripts/import-prayers.js:18-23 | forcing PM reads a time before noon twelve hours later and leaves an afternoon time alone; without PM it is the plain reading |
| Importer.FormatTime | scripts/import-prayers.js:12-29 | a time string exactly for a non-zero numeric cell, five characters with the colon third |
| Importer.FormatTimeRoundTrip | scripts/import-prayers.js:26-28 | the written "HH:MM" parses back, as the screens parse it, to the clock reading and its minute of the day |
| Importer.MidnightZeroIsMissing | scripts/import-prayers.js:13 | a cell holding the number 0 is written as null, while a day number whose fraction is midnight becomes "00:00" |
| Importer.MonthIndex | scripts/import-prayers.js:32-35 | an exact English month name gives its zero-based index; anything else gives none |
| Importer.ParseSheetName | scripts/import-prayers.js:45-52 | a sheet is kept exactly when the text before the first space is a month name and the piece after it reads as an integer; the month index names that text and the year is that integer |
| Importer.SheetNameRoundTrip | scripts/import-prayers.js:44-52 | a sheet named "<Month> <year>" is read back as that month and year |
| Importer.DateKeyFields | scripts/import-prayers.js:79-81 | for four-digit years the key is "YYYY-MM-DD" and each field reads back as the year, the one-based month and the day |
| Importer.CellAt | scripts/import-prayers.js:84-94 | a column past the end of the row reads as an empty cell |
| Importer.BuildDay | scripts/import-prayers.js:83-96 | each stored time is present exactly when its own column (3 to 12, with column 10 serving both Maghrib times) holds a non-zero number; Maghrib's adhan and jamat are the same, and the Hijri label is carried through |
| Importer.ColumnMinutesBounds | scripts/import-prayers.js:84-94 | a column gives a time exactly when its cell holds a non-zero number; a morning column keeps the sheet's whole minutes, and a forced-PM column is at or after noon |
| Importer.ImportedRowLoads | scripts/import-prayers.js:83-96 | loading a written record back gives every time from its own column: Fajr adhan and jamat and Shuruq from columns 3-5 at the sheet's minutes, Dhuhr from 6-7, Asr from 8-9, Maghrib from 10 and Isha from 11-12, each forced to PM and at or after noon |
| Importer.RowKey | scripts/import-prayers.js:75-81 | a row has a key exactly when its day cell is non-blank |
| Importer.ImportRows | scripts/import-prayers.js:73-97 | after the row loop a key is present exactly when it was already present or some data row from the third on produced it |
| Importer.ImportRowsLastWins | scripts/import-prayers.js:83 | a key produced by a row holds that row's record unless a later row produces the same key |
| Importer.ImportRowsUntouched | scripts/import-prayers.js:73-97 | a key no data row produces keeps its earlier record |
| Importer.AddSheet | scripts/import-prayers.js:43-52 | a skipped sheet leaves the table as it was, and no sheet removes a key |
| Importer.KeysOfAddSheet | scripts/import-prayers.js:43-97 | after one sheet a key is present exactly when it was before or one of the sheet's data rows produced it |
| Importer.ImportKeys | scripts/import-prayers.js:41-98 | the finished table holds exactly the keys that some data row of some well-named sheet produced |
| Importer.SkippedSheetAddsNothing | scripts/import-prayers.js:49-52 | appending a sheet with an unusable name does not change the table |
| PrayerIcons.IconForFirstMatch | app/components/dashboard/PrayerCard.tsx:145-153 | the lookup picks a rule's icon exactly when that rule's keyword occurs in the lower-cased name and no earlier rule's does |
| PrayerIcons.FallbackIffNoKeyword | app/components/dashboard/PrayerCard.tsx:153 | "schedule" is returned exactly when no keyword occurs in the lower-cased name |
| PrayerIcons.IconIsRuleIconOrFallback | app/components/dashboard/PrayerCard.tsx:145-153 | every result is one of the six rule icons or "schedule" |
| PrayerIcons.CaseInsensitive | app/components/dashboard/PrayerCard.tsx:146 | a name and its lower-cased form get the same icon |
| PrayerIcons.CatalogIcons | app/components/dashboard/PrayerCard.tsx:145-153 | the card's icon for each dashboard prayer name matches the dashboard's icon, except Maghrib, where the card shows "dark_mode" |
| Text.ContainsIff | app/components/dashboard/PrayerCard.tsx:147 | `includes` holds exactly when the keyword occurs at some position of the text |
| Text.Pad2 | app/components/dashboard/CountdownWidget.tsx:80-82 | `padStart(2, '0')` of a number gives at least two digits, exactly two below 100, that read back as the number |

## Left out

- **Clock and rendering.**
  - React state, effects and the one-second and one-minute timers are not modelled; `now` is a parameter.
  - The live system clock string and the date header are not modelled.
- **Time zones.** The source keys the day by the UTC date (`toISOString`) but anchors times with local `setHours`. The model uses one time line in which the local day and the key day coincide, so zone offsets and daylight-saving shifts are not modelled.
- **Hijri label.** The dashboard shows the Hijri label, or "Loading..." while there is none. The model carries the label in the stored record but does not model that header text.
- **Sponsored tag.** The mock "sponsored" tag on the Maghrib row is presentational and is not modelled.
- **Smart-alarm side effects.** The light-alarm brightness ramp, the camera torch flash, alarm sounds and the enable switches drive devices and timers. They do not feed the computed times, so they are left out.
- **Countdown side effects.** Audio playback and the 200 ms flash timeout are not modelled. `Countdown.OnTick` returns which cue to give. It treats the audio element as always loaded.
- **Jummah times.** The configured Jummah times are a parameter (`Resolver.JummahTimes`). The constants file that defines them is not part of this model.
- **Clock.ParseClock:** a piece counts as a number only when it consists of decimal digits, empty included. Surrounding whitespace, signs, fractions, exponents and hexadecimal, which `Number` also accepts, are not modelled; such strings are treated as Invalid Dates.
- **Clock.ParseMinutes:** maps an Invalid Date to no time. On the dashboard this is exact for the scans and the row highlight, because every comparison with an Invalid Date is false. The Friday cutoff (`Resolver.FridayOverride`) and the tomorrow fallback (`Resolver.ViewAsWritten`) treat an Invalid Date separately, as the source does.
- **SmartAlarm.SmartAlarmScreen:** treats an unreadable stored time like an absent one. The page instead carries the Invalid Date into its arithmetic and shows "12:NaN AM" and "NaNh NaNm"; those NaN displays are not modelled.
- **Text.ParseInt:** models `parseInt` in base ten only. Leading whitespace and hexadecimal prefixes are not modelled.
- **Text.Lower:** folds ASCII letters only. Other characters keep their case.
- **Importer.MonthIndex:** looks names up only among the twelve months. Names such as "constructor", which a plain object lookup would also find on the prototype chain, are not modelled.
- **Importer.FormatTime:** starts from the whole number of seconds that the floating-point fraction of a day rounds to. The `% 1` and `Math.round` on binary floating point are not modelled.
- **Spreadsheet reading.** Reading the workbook file and writing the JSON file are I/O. The model works on sheets given as values and returns the table as a map.
- **Importer.Row:** the day-of-month cell is taken as a natural number (0 when blank). Text or fractional day cells are not modelled.
- **Presentational files.** The other screens, widgets and layout components are not part of this model.

## Findings

| source | as written | input that shows it | evidently intended | confidence | as-written member | corrected member |
|---|---|---|---|---|---|---|
| app/components/dashboard/DashboardClient.tsx:196 | every row reads `(todayData as any)[prayer.key]` even when today's entry is undefined, although the rest of the screen guards on `todayData` | any moment whose date has no entry in the table: the Fajr row's lookup throws a TypeError and the dashboard fails to render | rows with "--:--" placeholders, matching the guarded header and countdown | not executed | Resolver.RenderRowsAsWritten | Resolver.RenderRows |
| app/components/dashboard/DashboardClient.tsx:120-181 | the fallback keeps whatever `parseTime` returns for tomorrow's Fajr adhan, and the countdown calls `toISOString` on any truthy target | after Isha, with tomorrow's Fajr adhan stored as a non-empty string that is not a time (for example "TBA"): the Invalid Date reaches `toISOString`, which throws a RangeError | no countdown target, as when tomorrow's entry is missing | not executed | Resolver.ViewAsWritten | Resolver.View |
