# Overnight visitor chart alignment, in Dafny

This project models the core of a visitor-count dashboard. For a chosen shop
and night it shows a line chart of male and female visitor counts, with the
same night one week earlier drawn beside it.

- `ChartData` models `useChartData`. It takes an anchor date and two raw
  series, the selected night and the comparison night. It builds a
  10-minute grid from 18:00 of the anchor day to 02:50 of the next day. For
  each slot it takes, from each series, the first sample in ascending
  timestamp order whose normalised minutes are within 5 of the slot's. It
  emits one aligned `ChartPoint` per slot. If no sample is close enough, the
  counts stay absent (`None`) and are never turned into zero. If either
  series is missing (`null`), the result is empty.
- `LocalTime` holds the wall-clock arithmetic the transform relies on. This
  covers `getHours`, `getMinutes`, `setHours`, `setDate(+1)`, the
  `getTimeMinutes` normalisation and the `"HH:mm"` label.
- `HomePage` models the selection rules of the page. These are the default
  date, the store list of the selected prefecture, and the rule that clears
  a remembered shop when it is not in that list.
- `Wrappers` holds `Option`, which stands for `null` / `undefined`.

Time is modelled as an integer count of local seconds, with no time zone or
daylight saving time. The local hour is `(t / 3600) % 24` and the minute is
`(t / 60) % 60`, both with Euclidean division. The anchor date may be any
instant of its day, because `setHours` only keeps the day. The grid loop and
`find` are methods with loops, proved equal to the functions `ChartPoints`
and `FirstWithin`. The properties are lemmas about those functions.

Some behaviour of the code is easy to miss on a first reading:

- The code takes the first sample within tolerance after the sort, not the
  nearest one. `FirstNotNearest` shows a slot at 18:00 with samples at 17:56
  and 18:01: the 17:56 sample is taken.
- The bound is inclusive and the step is twice the bound, so a sample
  exactly halfway between two slots fills both
  (`HalfwaySampleFillsBothSlots`). A raw sample can therefore feed two grid
  slots.
- The hour filter `hour >= 18 || hour < 3` never drops a point on this
  grid: all 54 slots pass it (`NightInWindow`, `SlotClock`, `Grid`).
- Matching compares whole minutes, so seconds are dropped with floor
  division. A sample up to 5 min 59 s after a slot matches it. A sample
  5 min 1 s before it does not (`WithinSlot`).
- Matching compares time of day only. A sample from any other day at the
  same clock time matches too. This is what lines up the comparison week
  (`TimeMinutesPeriodic`, `SameNightLastWeek`).

## Model

| member | source | states |
|---|---|---|
| `LocalTime.Hour` | src/hooks/useChartData.ts:49 | the local hour of an instant, always in 0..23 |
| `LocalTime.Minute` | src/hooks/useChartData.ts:36 | the local minute of an instant, always in 0..59 |
| `LocalTime.DayStart` | src/hooks/useChartData.ts:23-24 | the local midnight of an instant's day: a multiple of 86400, at most the instant, less than a day before it |
| `LocalTime.SetHours` | src/hooks/useChartData.ts:24 | `setHours(h, m, 0, 0)` keeps the day and gives exactly hour `h`, minute `m`, zero seconds |
| `LocalTime.AddDays` | src/hooks/useChartData.ts:26 | `setDate(getDate() + n)` moves the day by `n` and keeps the whole time of day: the hour, the minute and the offset into the day to the second |
| `LocalTime.TimeMinutes` | src/hooks/useChartData.ts:30-37 | normalised minutes lie in [240, 1679]; the result is hour·60 + minute, with hours before 4 shifted by 24 |
| `LocalTime.TimeMinutesSinceFour` | src/hooks/useChartData.ts:30-37 | reference reading: normalised minutes are 240 plus the whole minutes since the last 04:00, so seconds are ignored |
| `LocalTime.TimeMinutesMonotone` | src/hooks/useChartData.ts:30-37 | within one 04:00-to-04:00 span, a later instant never has fewer normalised minutes |
| `LocalTime.TimeMinutesPeriodic` | src/hooks/useChartData.ts:30-37 | shifting an instant by whole days leaves its normalised minutes unchanged |
| `LocalTime.HalfPastMidnight` | src/hooks/useChartData.ts:30-37 | 00:30 normalises to 1470, above the 1080 of 18:00 the evening before |
| `LocalTime.Label` | src/hooks/useChartData.ts:66 | the "HH:mm" label has 5 characters, a colon in the middle, and digits that spell the hour and minute |
| `ChartData.FirstWithin` | src/hooks/useChartData.ts:54-57 | `find`: absent exactly when no element is within tolerance; otherwise an element of the series that is within tolerance |
| `ChartData.Find` | src/hooks/useChartData.ts:54-57 | the linear scan returns what `FirstWithin` specifies |
| `ChartData.FirstWithinIndex` | src/hooks/useChartData.ts:54-62 | the element found sits at an index that is within tolerance, and no earlier index is |
| `ChartData.InsertPermutes` | src/hooks/useChartData.ts:40-41 | inserting one sample adds exactly that sample, as a multiset, to the series |
| `ChartData.InsertSorted` | src/hooks/useChartData.ts:40-41 | inserting into an ascending series keeps it ascending by timestamp |
| `ChartData.SortSortsAndPermutes` | src/hooks/useChartData.ts:40-41 | the sorted copy is ascending by timestamp and is a permutation of the input |
| `ChartData.SortKeepsMembers` | src/hooks/useChartData.ts:40-41 | the sorted copy holds exactly the samples of the input |
| `ChartData.InsertStable` | src/hooks/useChartData.ts:40-41 | inserting puts the new sample ahead of the samples with the same timestamp |
| `ChartData.SortStable` | src/hooks/useChartData.ts:40-41 | the sort is stable: for each timestamp, the samples with it keep their input order |
| `ChartData.FirstInSorted` | src/hooks/useChartData.ts:54-62 | in an ascending series, the first eligible sample has the smallest timestamp among the eligible ones and is the first with its timestamp |
| `ChartData.FirstMatch` | src/hooks/useChartData.ts:40-62 | `find` on the sorted copy gives nothing exactly when no sample is eligible; otherwise it gives the eligible sample with the smallest timestamp, and among ties the first one listed |
| `ChartData.ChosenUnique` | src/hooks/useChartData.ts:54-62 | that description picks at most one sample |
| `ChartData.TieGoesToEarlier` | src/hooks/useChartData.ts:40-62 | with samples at 18:00 and 18:10 in either input order, the point at 18:05 takes the 18:00 one |
| `ChartData.FirstNotNearest` | src/hooks/useChartData.ts:54-57 | the first eligible sample is taken even when a later one is nearer |
| `ChartData.WithinSlot` | src/hooks/useChartData.ts:54-57 | a sample near the night matches slot `i` exactly when its whole-minute offset from the slot is between -5 and 5 |
| `ChartData.ToleranceBoundary` | src/hooks/useChartData.ts:54-62 | 5 minutes before or after a slot matches; 6 minutes before or after does not |
| `ChartData.HalfwaySampleFillsBothSlots` | src/hooks/useChartData.ts:54-62 | a sample 5 minutes after slot `i` is eligible for slots `i` and `i + 1` |
| `ChartData.StartAndEnd` | src/hooks/useChartData.ts:22-27 | the start is 18:00 of the anchor day; the end is the 53rd slot, on the next day |
| `ChartData.NightMinutes` | src/hooks/useChartData.ts:30-37 | from 04:00 to 04:00, an instant `r` seconds after 18:00 normalises to 1080 + floor(r / 60) |
| `ChartData.SlotClock` | src/hooks/useChartData.ts:48-52 | slot `i` has normalised minutes 1080 + 10·i, hour (18 + i / 6) mod 24 and minute 10·(i mod 6), and passes the hour filter |
| `ChartData.NightInWindow` | src/hooks/useChartData.ts:48-51 | every grid instant from 18:00 to 02:50 passes the hour filter |
| `ChartData.PointsFromGrid` | src/hooks/useChartData.ts:45-76 | when every remaining instant passes the filter, the loop from slot `j` appends exactly the reference grid of points |
| `ChartData.PointsFromSlot` | src/hooks/useChartData.ts:45-76 | from slot `j` on, the loop appends exactly `54 - j` points, the `k`-th built from slot `j + k` |
| `ChartData.ChartPoints` | src/hooks/useChartData.ts:15-79 | when both series are present the result has exactly 54 points |
| `ChartData.Grid` | src/hooks/useChartData.ts:45-76 | with both series present, point `i` is the point assembled for slot `i` from the two sorted series |
| `ChartData.GridEnds` | src/hooks/useChartData.ts:23-27 | the first point is at 18:00 of the anchor day, labelled "18:00"; the last is at 02:50 of the next day, labelled "02:50"; one more step would pass the end |
| `ChartData.FirstAndLastSlot` | src/hooks/useChartData.ts:23-27 | slot 0 is the start, at 18:00 of the anchor day, labelled "18:00"; slot 53 is the end, at 02:50 of the next day |
| `ChartData.GridSpacing` | src/hooks/useChartData.ts:75 | consecutive points are exactly 600 s apart, and timestamps strictly increase |
| `ChartData.PointClock` | src/hooks/useChartData.ts:49-67 | each point carries its slot's timestamp, its local hour, which is 18 or later or before 3, and its label |
| `ChartData.CurrentCounts` | src/hooks/useChartData.ts:68-69 | `male`/`female` are absent exactly when no current sample is eligible; otherwise they are copied from the chosen sample, zero included |
| `ChartData.PreviousCounts` | src/hooks/useChartData.ts:70-71 | the same for `prevMale`/`prevFemale` and the comparison series |
| `ChartData.CurrentIgnoresComparison` | src/hooks/useChartData.ts:54-69 | the timestamps, labels, hours and current counts do not depend on the comparison series |
| `ChartData.PreviousIgnoresCurrent` | src/hooks/useChartData.ts:59-71 | the comparison counts do not depend on the current series |
| `ChartData.SingleSampleExample` | src/hooks/useChartData.ts:54-71 | one sample at 18:02 fills the 18:00 point with its counts, zero included, and leaves the 18:10 point absent |
| `ChartData.SameNightLastWeek` | src/hooks/useChartData.ts:59-71 | a comparison series that repeats the current one exactly 7 days earlier gives prev counts equal to the current counts at every slot |
| `ChartData.InsertShift` | src/hooks/useChartData.ts:40-41 | shifting every sample by whole days commutes with inserting one sample |
| `ChartData.SortShift` | src/hooks/useChartData.ts:40-41 | shifting every sample by whole days commutes with the sort |
| `ChartData.FirstWithinShift` | src/hooks/useChartData.ts:54-62 | shifting every sample by whole days leaves the counts that `find` picks unchanged |
| `ChartData.UseChartData` | src/hooks/useChartData.ts:15-79 | the loop returns `ChartPoints`: empty when either series is missing, otherwise 54 points |
| `ChartData.AssemblePoint` | src/hooks/useChartData.ts:49-72 | the body of the loop builds the point that `MakePoint` describes from the two `find`s |
| `HomePage.DefaultDate` | src/app/page.tsx:15-19 | the default date is now or exactly one day earlier, at the same hour and minute |
| `HomePage.DefaultDateEvening` | src/app/page.tsx:15-19 | the default date is the day whose 18:00 is the latest not after now (the previous day before 18:00, today from 18:00) |
| `HomePage.Stores` | src/app/page.tsx:27-30 | with no prefecture (or an empty one) the store list is empty; otherwise it is that prefecture's list |
| `HomePage.ValidateShop` | src/app/page.tsx:34-45 | the result is the shop or `None`; it is always consistent; it keeps the shop exactly when the shop was already consistent |
| `HomePage.ValidateShopCases` | src/app/page.tsx:35-44 | no shop: unchanged; shop but no prefecture: cleared; shop not among the store ids: cleared; shop among them: kept |
| `HomePage.ValidateShopIdempotent` | src/app/page.tsx:34-48 | validating the validated selection changes nothing, so the effect settles after one `setShop(null)` |
| `HomePage.ClearedPrefectureClearsShop` | src/app/page.tsx:27-45 | with the memo's store list and no prefecture, no shop remains selected |

## Left out

- Time zones, daylight saving, and JavaScript `Date` normalisation of out-of-range fields. Instants are local seconds, and a day is always 86400 s.
- Milliseconds. `Date` holds milliseconds and `getTime() / 1000` converts them. Every instant here is a whole number of seconds, so the model works in seconds throughout.
- Non-integer or `NaN` timestamps and counts, which `Number()` coercion in `src/lib/api.ts` could produce. Timestamps and counts are integers.
- `Array.prototype.sort` is a library routine. It is modelled on values as a stable insertion sort, which gives the same result as any stable ascending sort. The in-place update of the copied array is not modelled.
- The date-fns `ja`-locale format. It is modelled as a zero-padded "HH:mm" of the local hour and minute.
- `getStoresByPrefecture`: `src/lib/stores` is not part of this model. It becomes the parameter `storesByPrefecture`.
- React plumbing. `useState`, `useMemo` and the effect scheduling are not modelled; `setShop(null)` becomes the value `ValidateShop` returns. The `console.debug` message is not modelled either.
- `new Date()` in `getDefaultDate`. The current instant is a parameter.
- `src/lib/api.ts` (HTTP, JSON decoding, the `total` field), `src/hook/use-visitor-data.ts` (the two concurrent queries and the 7-day date shift), `src/hook/use-stored-state.ts` (sessionStorage) and all UI components. These are I/O and rendering, with no logic of the transform.
- The shop and date strings of a loaded series are carried but unused, as in the code.
