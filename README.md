# 7:55 make a directory — countdowns and ranking

This project models the scheduling logic of the "7:55 make a directory" page. The page lists "generators": small web toys that work only at certain wall-clock minutes of the day, such as 11:11 or 22:22. For each generator it shows how long it is until its next minute comes round. It colours the card by urgency ("now", "soon", "later"), and it lists the soonest generator first.

The model has six modules.

- `WallClock` is `timeUntilWallClock`. An instant is an integer number of milliseconds since local midnight, and a day is a fixed 86 400 000 ms. The four `Date` setters are arithmetic on that instant, and `TimeUntilWallClock` is a method that applies them one after the other to a copy of `now`. It then rolls the candidate forward one day if it is already past, and returns the distance. The lemmas prove three things about it:
  - the countdown lies in `[0, 1 day)`;
  - the rollover happens exactly when the candidate is past, and the result is the distance taken modulo one day;
  - no earlier instant reads hh:mm:59.999, and inside the target minute less than 60 s remain.
- `Text` covers `String(n)` and `padStart(2, "0")`. It proves that reading back the two digits gives the original number.
- `Data` holds the catalog of `src/data.ts`, including the 23-entry dial-a-fish list built by `Array.from`. It proves by evaluation what the catalog promises:
  - every time is a valid wall-clock time;
  - the names are distinct;
  - the twice-daily entries are 12 hours apart;
  - every label but dial-a-fish's is the zero-padded time it stands for.
- `Urgency` covers:
  - `timeUntilGenerator`, in two forms. One is the two-branch function exactly as written over `clock`/`localHours`/`localMinutes`. The other is the minimum over the `clockTimes` list the data actually carries. A lemma connects the two.
  - the urgency tier;
  - the hours/minutes breakdown, with JavaScript's sign-keeping `%`;
  - the `(HHhMMm)` text and the hour:minute shown on the card.
- `Sorting` is a stable in-place sort of an array by an integer key. It is specified by a sorting function on sequences that is proved ordered, a permutation and stable. It is also proved to be the only sequence with those three properties, so it stands for `Array.prototype.sort` whatever algorithm an engine uses.
- `Ranking` is the in-place sort of `generators` by countdown, soonest first, as the comparator `(a, b) => timeUntilGenerator(a) - timeUntilGenerator(b)` evidently intends. The countdown it sorts by is the one over each entry's `clockTimes`, and one instant `now` serves every comparison. As written against this catalog, the comparator computes nothing useful; see `Ranking.RankGenerators` under "## Left out".

Time is taken as a parameter `now` (milliseconds into the current day); the clock itself is not read. Countdowns are integer milliseconds where the page uses floating-point seconds. Every threshold scales exactly: 15 × 60 s is 900 000 ms.

The code and its type declarations disagree. `src/App.tsx:21-32` reads `clock`, `localHours` and `localMinutes` from a generator, but the `Generator` type of `src/data.ts:11-19` declares none of them. It carries a `clockTimes` list instead. The model follows the code: `Urgency.TimeUntilClockSpec` is the function as written over a `ClockSpec` record with those three fields. Beside it, `Urgency.Countdown` is the same idea over `clockTimes`, and `Urgency.ClockTimesAgreeWithClockSpec` proves that the two agree on every twice-daily list and every single-time list. The ranking uses the list form, because that is what the catalog holds.

## Model

| member | source | states |
|---|---|---|
| WallClock.SetHours | src/App.tsx:8 | setHours: specified by WallClock.SetHoursToday. |
| WallClock.SetMinutes | src/App.tsx:9 | setMinutes: specified by WallClock.SetMinutesAfterHours. |
| WallClock.SetSeconds | src/App.tsx:10 | setSeconds: specified by WallClock.SetSecondsAfterMinutes. |
| WallClock.SetMilliseconds | src/App.tsx:11 | setMilliseconds: specified by WallClock.SetMillisecondsAfterSeconds. |
| WallClock.RemainingMs | src/App.tsx:13-17 | The rollover and the distance: specified by WallClock.RolloverExactlyWhenPast, WallClock.RemainingIsModularDistance and WallClock.RemainingIsNextOccurrence. |
| WallClock.TimeUntilWallClock | src/App.tsx:3-18 | Applying setHours, setMinutes, setSeconds(59) and setMilliseconds(999) to now, then rolling forward a day when the result is past, gives RemainingMs. For a valid hour and minute that is at least 0 and below one day. |
| WallClock.SettersReachEndOfMinute | src/App.tsx:6-11 | The four setters, applied in order to any instant of today, land on hh:mm:59.999 of today, whatever the instant's own fields were. |
| WallClock.SetHoursToday | src/App.tsx:8 | setHours on an instant of today keeps the minutes, seconds and milliseconds into the hour and replaces the hour. |
| WallClock.SetMinutesAfterHours | src/App.tsx:9 | setMinutes then keeps the hour and the milliseconds into the minute and replaces the minute. |
| WallClock.SetSecondsAfterMinutes | src/App.tsx:10 | setSeconds keeps the whole minutes and the milliseconds into the second. |
| WallClock.SetMillisecondsAfterSeconds | src/App.tsx:11 | setMilliseconds keeps the whole seconds and replaces the milliseconds. |
| WallClock.ValidTimeBounds | src/App.tsx:6-17 | For hours 0..23, minutes 0..59 and now within the day, the countdown is in [0, 86 400 000). |
| WallClock.RemainingBounds | src/App.tsx:13-17 | The same bounds hold for any candidate less than a day away from now, in either direction. |
| WallClock.RolloverExactlyWhenPast | src/App.tsx:13-15 | The one-day rollover is added if and only if the candidate is strictly before now (both directions). The result is always congruent, modulo a day, to candidate − now. |
| WallClock.RemainingIsModularDistance | src/App.tsx:13-17 | For a valid time the countdown equals (candidate − now) mod one day. |
| WallClock.RemainingIsNextOccurrence | src/App.tsx:5-17 | now + countdown is an instant whose clock reads hh:mm:59.999, and no instant from now up to it reads so: it is the next occurrence. |
| WallClock.WithinTargetMinute | src/App.tsx:8-17 | When now lies inside the target minute the countdown is the time left to that minute's end, under 60 s, and never the next day's occurrence. |
| Text.PadStart | src/App.tsx:60 | padStart returns width characters when the string is shorter and the string itself otherwise. The original string is its suffix, and every character before it is the fill. |
| Text.NatToStringDigits | src/App.tsx:70 | String(n) of a natural number is a non-empty digit string, one digit below 10 and two digits from 10 to 99. |
| Text.NatToStringRoundTrip | src/App.tsx:70-71 | Reading back the decimal digits String(n) produces gives n. |
| Text.IntToString | src/App.tsx:70-71 | String(n): specified by Text.NatToStringDigits and Text.NatToStringRoundTrip. |
| Text.PadTwo | src/App.tsx:60 | String(n).padStart(2, "0"): specified by Text.PadTwoDenotes, Text.PadTwoOfDigits and Text.PadTwoShape. |
| Text.PadTwoDenotes | src/App.tsx:70-71 | For 0..99, String(n).padStart(2, "0") has exactly two digits and denotes n. |
| Text.PadTwoOfDigits | src/App.tsx:60 | From 10 to 99 the padded field is String(n) itself; below 10 it is String(n) after one "0". |
| Text.PadTwoShape | src/App.tsx:60 | Below 10 the padding adds exactly one leading "0"; from 10 to 99 it adds nothing. |
| Data.DialAFishTimes | src/data.ts:105-108 | The Array.from list of dial-a-fish: specified by Data.DialAFishList. |
| Data.DialAFishList | src/data.ts:105-108 | The Array.from list has 23 entries and the i-th is i:11, so the hours run 0..22 and 23:11 is absent. |
| Data.CatalogTimesValid | src/data.ts:21-111 | Every clock time of every catalog entry has hours 0..23 and minutes 0..59. |
| Data.CatalogTimesNonEmpty | src/data.ts:21-111 | Every catalog entry has at least one clock time. |
| Data.CatalogNamesDistinct | src/data.ts:21-111 | The seven names are pairwise distinct, so they can serve as list keys. |
| Data.CatalogTwiceDaily | src/data.ts:29-93 | Every two-time entry lists the same minute twice, twelve hours apart. Exactly bake a dish and dial-a-fish are not twice daily. |
| Data.CatalogLabels | src/data.ts:33-109 | For the six entries before dial-a-fish, canonicalTime is the zero-padded HH:MM of the first clock time ({2,55} gives "02:55"). Dial-a-fish shows "**:11". |
| Urgency.Min | src/App.tsx:30 | Math.min of two countdowns is one of them and no larger than either. |
| Urgency.TimeUntilClockSpec | src/App.tsx:20-34 | timeUntilGenerator as written over clock/localHours/localMinutes: specified by Urgency.ClockSpecIsListMinimum, Urgency.TwelveHourIsMinimum and Urgency.ClockSpecBounds. |
| Urgency.ClockSpecBounds | src/App.tsx:20-34 | As written, for a valid hour and minute, both branches give a countdown in [0, one day), although the "12" branch may try an hour past 23. |
| Urgency.TimeUntilGenerator | src/App.tsx:20-34 | The countdown of an entry over its clockTimes: specified by Urgency.Countdown, Urgency.ClockTimesAgreeWithClockSpec and Urgency.CountdownBounds. |
| Urgency.ClockSpecIsListMinimum | src/App.tsx:20-34 | The "12" branch is the list minimum over [h:mm, (h+12):mm]; the other branch is the list minimum over [h:mm]. |
| Urgency.TwelveHourIsMinimum | src/App.tsx:21-30 | On a "12" clock the countdown is at most that of h:mm and at most that of (h+12):mm, and equals one of them. |
| Urgency.Countdown | src/App.tsx:20-34 | The countdown of a non-empty list of clock times is the countdown of one of its times, and no time of the list comes sooner. |
| Urgency.ClockTimesAgreeWithClockSpec | src/App.tsx:20-34 | A twice-daily clockTimes list gives the "12" branch on its first time. A one-time list gives the single-time branch. |
| Urgency.CountdownBounds | src/App.tsx:20-34 | For valid clock times the list countdown is in [0, one day). |
| Urgency.TwelveHourAfterNoonMissesMorning | src/App.tsx:26-30 | As written, at 01:00 a "12" clock at 14:55 counts 13 h 55 m 59.999 s. The twice-daily countdown counts 1 h 55 m 59.999 s. |
| Urgency.TwiceDailyIsSoonerOfBoth | src/App.tsx:21-30 | The corrected twice-daily countdown is within a day, at most the countdown of h:mm and of (h+12) mod 24:mm, and equal to one of them, whichever half of the day h is written in. |
| Urgency.TwelveHourBeforeNoonIsTwiceDaily | src/App.tsx:21-30 | For hours 0..11 the "12" branch as written equals the corrected twice-daily countdown. |
| Urgency.CatalogTwiceDailyCountdown | src/data.ts:29-93 | Every twice-daily catalog entry lists its morning time first, so its countdown is the twice-daily countdown of that time. |
| Urgency.TierOf | src/App.tsx:38-39 | The tier of a countdown: specified by Urgency.TierThresholds and Urgency.TierBoundaries. |
| Urgency.TierThresholds | src/App.tsx:38-39 | "now" if and only if the countdown is below 0; "soon" if and only if it is in [0, 900 s); "later" if and only if it is at least 900 s. |
| Urgency.TierBoundaries | src/App.tsx:38-39 | −1 ms is "now", 0 is "soon", 899.999 s is "soon" and 900 s is "later". |
| Urgency.ValidNeverNow | src/App.tsx:37-39 | An entry whose clock times are valid is never in the "now" tier. |
| Urgency.CatalogNeverNow | src/App.tsx:37-39 | No catalog entry is ever in the "now" tier. |
| Urgency.TruncRem | src/App.tsx:42 | JavaScript's %: below the divisor in magnitude, of the dividend's sign, and differing from the dividend by a multiple of the divisor. For a non-negative dividend it is the mathematical remainder. |
| Urgency.DisplayHours | src/App.tsx:41 | Math.floor(timeUntil / 3600): specified by Urgency.BreakdownBounds and Urgency.BreakdownBelowZero. |
| Urgency.DisplayMinutes | src/App.tsx:42 | Math.floor((timeUntil % 3600) / 60): specified by Urgency.BreakdownBounds and Urgency.BreakdownBelowZero. |
| Urgency.BreakdownBounds | src/App.tsx:41-42 | For a non-negative countdown: hours·3600 s + minutes·60 s ≤ countdown < that + 60 s. The minutes are 0..59, and below a day the hours are 0..23. |
| Urgency.BreakdownBelowZero | src/App.tsx:41-42 | Just below zero the hours show −1 and the minutes show a negative value, because floor and the sign of % both carry through. |
| Urgency.CountdownText | src/App.tsx:70-71 | The (HHhMMm) text: specified by Urgency.CountdownTextDenotes. |
| Urgency.CountdownTextDenotes | src/App.tsx:70-71 | Below a day the text is six characters HHhMMm. Its two digit fields denote the displayed hours and minutes, which together give the countdown's whole minutes. |
| Urgency.ClockLabel | src/App.tsx:59-60 | The hour:minute on the card: specified by Urgency.ClockLabelAgainstLabel. |
| Urgency.ClockLabelAgainstLabel | src/App.tsx:59-60 | The card's hour:minute equals the catalog's HH:MM label from 10:00 on, and lacks only its leading zero before 10:00. |
| Sorting.InsertionSortSorted | src/App.tsx:89-90 | The sorted sequence has non-decreasing keys. |
| Sorting.InsertionSortPermutes | src/App.tsx:89-90 | The sorted sequence holds the same elements as the input, each as often. |
| Sorting.InsertionSortStable | src/App.tsx:89-90 | For every key, the elements with that key keep their input order. |
| Sorting.InsertionSortOfSorted | src/App.tsx:89-90 | Sorting a sequence already ordered by key leaves it unchanged. |
| Sorting.InsertionSortIdempotent | src/App.tsx:89-90 | Sorting twice gives what sorting once gives. |
| Sorting.SortedStableUnique | src/App.tsx:89-90 | Two key-ordered sequences that agree, key by key, on the order of their elements are equal. |
| Sorting.StableSortIsInsertionSort | src/App.tsx:89-90 | Any key-ordered, stable rearrangement of the input is exactly the specified sort, so the engine's algorithm does not matter. |
| Sorting.InsertInPlace | src/App.tsx:90 | Shifting a[i] left past larger keys turns a[..i+1] into the insertion of a[i] into a[..i] and leaves the rest of the array alone. |
| Sorting.SortByKey | src/App.tsx:89-90 | After sorting in place the array holds the specified sort of its old contents. |
| Ranking.RankGenerators | src/App.tsx:89-90 | The catalog array sorted in place by countdown is the ranking of its old contents. It is a permutation of them, has non-decreasing countdowns, and entries with equal countdowns keep their order. |
| Ranking.Ranked | src/App.tsx:89-90 | The ranking of a catalog at instant now: specified by Ranking.RankedCatalog, Ranking.FirstIsSoonest and Ranking.RankedNamesDistinct. |
| Ranking.RankedCatalog | src/App.tsx:89-90 | The ranked list has the entries of the catalog, each as often, and non-decreasing countdowns. |
| Ranking.FirstIsSoonest | src/App.tsx:89-93 | The first card listed has the smallest countdown of the catalog. |
| Ranking.RankedNamesDistinct | src/App.tsx:89-92 | After ranking, the names used as React keys are still pairwise distinct. |

## Left out

- Rendering is not modelled: the React/JSX markup, Tailwind classes, colours, the `<details>` element and tailwind.config.js. The tier the colours depend on is modelled.
- Time zones and daylight saving are not modelled: a day is a fixed 86 400 000 ms, so `setDate(getDate() + 1)` adds exactly that.
- Countdowns are integer milliseconds where the page divides by 1000 into floating-point seconds. Every threshold and divisor scales exactly, so the tiers, hours and minutes agree.
- The page reads the clock afresh (`new Date()`) on every call, including every comparator call during the sort. The model uses one instant `now` for the whole ranking.
- Every mutation of the `Date` object is modelled, but as arithmetic on a local integer, because the object never escapes `timeUntilWallClock`.
- The display-only catalog fields `url`, `description`, `authors` and `protocol`, and the `Author` type, are not modelled.
- Missing `clock`/`localHours`/`localMinutes` fields are not modelled. In JavaScript they evaluate to `undefined` and the countdown becomes `NaN`. The model takes these fields as given in `ClockSpec`.
- Ranking.RankGenerators: ranks by the `clockTimes` countdown, which the page never computes. As written against this catalog, `generator.clock` is `undefined` (src/App.tsx:21), so the else branch calls `setHours(undefined)` and every countdown is `NaN` (src/App.tsx:8, 17, 32). Three things follow. Every card is "later", because `NaN < 0` and `NaN < 900` are both false (src/App.tsx:39). Every card reads "(NaNhNaNm)" (src/App.tsx:41-42, 70-71). The comparator returns `NaN`, which `Array.prototype.sort` treats as 0, so the sort at src/App.tsx:89-90 keeps declaration order. The model states what the comparator evidently intends instead.
- Urgency.TimeUntilGenerator: reads `clockTimes`, which the code never does. As written on this catalog the countdown is `NaN` (see the previous line); `Urgency.TimeUntilClockSpec` is the code as written for an entry that has the three fields.
- Urgency.Countdown requires a non-empty list: `Data.ClockList` excludes the empty list. The page never takes a minimum over a list, and every catalog entry has at least one clock time.
- The engine's sort algorithm is not modelled. The sort is specified as insertion sort, which `Sorting.StableSortIsInsertionSort` shows every stable sort by the same key equals.
- The page has no timer, re-rendering, focus or selection state, so none is modelled.

## Findings

| source | as written | input that shows it | evidently intended | confidence | as-written member | corrected member |
|---|---|---|---|---|---|---|
| src/App.tsx:21-30 | A "12" clock takes the sooner of localHours and localHours + 12. When localHours is 12 or more, the second hour passes 23, so setHours moves it to the next day, and the same minute twelve hours earlier today is never tried. | now = 01:00:00.000, clock "12", localHours 14, localMinutes 55 | The sooner of 02:55 and 14:55: 1 h 55 m 59.999 s rather than 13 h 55 m 59.999 s. | low (not executed). Every twice-daily entry of the catalog writes its morning time first, so none of them shows it. | Urgency.TwelveHourAfterNoonMissesMorning | Urgency.TwiceDailyIsSoonerOfBoth |
