# 2020 energy API — a Dafny model of its decoders and analytics

The server receives UDP telemetry frames from DALI-2 lighting control gear.
It decodes them into energy records and answers dashboard queries by
reducing the stored records of each gear. This project models those parts:

- **The bit-field decoders** of `app/magicValue.js`.
  - `magicGetIntAnyLength` reads a big-endian integer of at most four bytes.
    Its `<<=` wraps to 32 bits.
  - `magicGetFloatFromScale` reads a scaled decimal: a signed exponent byte,
    then a mantissa of one to eight bytes. The mantissa is zero-padded and
    read as a signed 64-bit integer. A negative exponent is applied by
    inserting a `.` into the decimal text and parsing it back.
  - Both keep the shape of the source: a loop with its counter, and a
    padding loop followed by the pure exponent branch. Each is proved equal
    to a specification function, and the properties are proved about that
    function.
- **Frame ingest** (`Frame`). A frame is dropped when it is shorter than
  140 bytes, when its header is not `DALI-2`, or when no gear is registered
  for its (server id, channel, unit). Otherwise the fields are read at their
  fixed offsets and six of them are rescaled. The gear registry is a map
  given as a parameter.
- **The grouping pipeline** (`Samples`, `Daily`, `Hourly`, `Buckets`,
  `Grouping`).
  - Records are heap objects (`Samples.Sample`) whose `device_arc` can be
    overwritten, held in an `array` that `sort` reorders in place.
  - `mergeToDailyData` sorts its argument newest first. It keeps the newest
    record of each day and overwrites that record's arc level with the day's
    mean. The newest record overall is counted twice.
  - `mergeToHourData` keeps the oldest record of each hour.
  - `groupWeekData` and `groupHourData` charge consecutive pairs to weekday
    or hour-of-day slots.
  - `getGroupingData` hands the same array to all three.
    `Grouping.GroupingData` states what each call then sees: the arcs
    written by the daily pass, and the ascending re-sort done by the hourly
    pass.
- **The query-side reductions.**
  - The hour-mode pointer loop of `fetchEnergyData` keeps the oldest record
    of each hour run and drops the record that ends a run.
  - The fault-counter scan of `getErrorLightSearch`.
  - The failure filter of `getErrorMaxLightSearch2Month`.
  - The per-gear newest/oldest deltas of `fetchStatus`.

Calendar days and hours are functions of the millisecond timestamp and a
fixed local offset (`Calendar`). Energies, rates and divided fields are
exact `real`s; identifiers and bytes are naturals. Thrown errors become
`Result` values. A missing value (`undefined`, `null`) becomes `Option.None`.

With exactly two records of the day, `fetchStatus` takes the older one as
the baseline: it reads `groupingData[id][1]`, so the deltas are taken
against the older record and are not zero.

## Model

| member | source | states |
|---|---|---|
| MagicValue.IntAnyLength | app/magicValue.js:30-41 | Error exactly when the length `stop - start + 1` exceeds 4, carrying that length. A length of one or less, `stop < start` included, gives the byte at `start`. Two or three bytes give their big-endian unsigned value. Four bytes give a value in the int32 range, congruent to the big-endian value modulo 2^32 |
| MagicValue.GetIntAnyLength | app/magicValue.js:30-41 | The shift-and-add loop, wrapping to int32 at each `<<= 8`, returns exactly `IntAnyLength`; adding a byte to the shifted value cannot leave the int32 range |
| MagicValue.FourByteSign | app/magicValue.js:33-39 | A four-byte read succeeds, and is negative exactly when its first byte is 0x80 or more |
| MagicValue.ToInt32Congruent | app/magicValue.js:36 | The 32-bit wrap changes a value only by a multiple of 2^32 |
| MagicValue.IntAnyLengthSample | app/magicValue.js:1-44 | On the file's sample buffer, bytes 2..3 read as 2 |
| MagicValue.FloatFromScale | app/magicValue.js:3-28 | Error exactly when the span `stop - start` is outside 1..8 (reported with that span) or the field runs past the buffer |
| MagicValue.GetFloatFromScale | app/magicValue.js:3-27 | The `unshift` loop pads the mantissa to eight bytes. The method returns exactly `FloatFromScale` |
| MagicValue.MantissaValue | app/magicValue.js:8-15 | A mantissa under eight bytes is its unsigned big-endian value, at least 0 and below 256^span. An eight-byte mantissa is negative exactly when its first byte is 0x80 or more |
| MagicValue.FloatFromScaleValue | app/magicValue.js:3-27 | The result is the exponent byte read as int8 applied to the (signed 64-bit when eight bytes) mantissa `m`. A non-negative exponent `e` gives `m * 10^e`. A negative `e` with at least `-e` digits gives `m / 10^-e` |
| MagicValue.ScaledUp | app/magicValue.js:18-19 | A non-negative exponent multiplies by its power of ten |
| MagicValue.ScaledExact | app/magicValue.js:20-26 | For a negative exponent `e` and a magnitude of at least `-e` digits, the dot-inserted text parses to `m / 10^-e`, for mantissas of either sign |
| MagicValue.ScaledShortMantissa | app/magicValue.js:23-24 | When the dot would fall before the first digit, `substr` with a negative start counts from the end. The result is the value of the trailing digits only |
| MagicValue.ScaledShortMantissaSample | app/magicValue.js:20-26 | Mantissa 5 with exponent -3 yields 0.5, not 0.005 |
| MagicValue.ScaledNegativeAtSign | app/magicValue.js:21-26 | When the dot lands just before the `-` of a negative mantissa, the text is not a number (NaN) |
| MagicValue.NarrowFieldIsNumber | app/magicValue.js:8-26 | A mantissa under eight bytes always yields a number, never NaN |
| MagicValue.FloatFromScaleSample | app/magicValue.js:1-43 | On the file's sample buffer, bytes 3..5 read as 128300 |
| Decimal.DotInsertion | app/magicValue.js:21-26 | Inserting a `.` after `k` digits of a digit string and parsing it with `Number` divides the string's value by 10^(length - k) |
| Frame.Ingest | app/server.js:190-287 | `TooShort` exactly for frames under 140 bytes. `BadHeader` exactly when a long enough frame does not start with `DALI-2`. `UnknownGear` exactly when the key is unregistered. Otherwise the record holds the registered gear's id, the time, the arc level and the corrected reading |
| Frame.StoredFields | app/server.js:200-266 | Covers the decoded fields and the corrections. Per stored field in terms of the frame bytes: the voltages divided by 10, the current by 1000, the power factor by 100, each temperature less 60, each applied once. Also: the 24-bit start count, the big-endian counters, the failure count and the arc level at byte 27 |
| Frame.StoredRanges | app/server.js:218-266 | After correction: gear voltage in 0..6553.5, current in 0..65.535, gear temperature in -60..195, power factor in 0..2.55, start count below 2^24 |
| Frame.StartCountBytes | app/server.js:218 | Masking the 32-bit word at byte 83 with 0x00ffffff leaves exactly the big-endian value of bytes 84..86 |
| Frame.HexRoundTrip | app/server.js:201 | The serial's hex text decodes back to the bytes it came from |
| Frame.HeaderText | app/server.js:194-195 | The header constant is the ASCII text `DALI-2` |
| Frame.ShortFrameDropped | app/server.js:191-193 | The decoder's eight-byte sample buffer is dropped as too short |
| Calendar.HourOfDay | app/server.js:526 | The hour of the day is in 0..23 and is consistent with the absolute hour and day |
| Calendar.Weekday | app/server.js:467 | The weekday is in 0..6, with Sunday as 0 |
| Calendar.Monotone | app/server.js:399 | A later timestamp never falls on an earlier day or hour |
| Samples.SortArray | app/server.js:392 | `sort` with a numeric comparator reorders the array in place into the stable sort of its old contents, and the objects' views follow |
| Daily.MergeToDaily | app/server.js:389-415 | Fewer than two records: array and result are the input. Otherwise the array is sorted newest first in place, and the result is the day openers in ascending time. After the call, the records read as `AfterDaily` of the old records and the result reads as `DailyMerge`. The result's objects come from the input |
| Daily.WriteDayMeans | app/server.js:393-412 | The walk overwrites the arc of every day's first (newest) record with its run mean and leaves the rest. It returns exactly those openers, in walk order |
| Daily.DailyIsReversed | app/server.js:392-413 | The openers of the walk fall on strictly decreasing days. The daily result is their ascending sort |
| Daily.DailyAscending | app/server.js:413 | The daily result has strictly increasing days and times |
| Daily.DailyIdempotent | app/server.js:389-415 | Reducing an already reduced list changes nothing |
| DailyValues.DailyKept | app/server.js:398-410 | Every kept record is an input record, with only its arc level changed |
| DailyValues.DailyNewest | app/server.js:392-399 | The kept record of a day is at least as new as every input record of that day |
| DailyValues.DailyCovers | app/server.js:398-410 | Every day present in the input has a kept record, no older than any input record of that day |
| DailyValues.DailyMean | app/server.js:396-412 | A kept record's arc level is the mean of its day's arc levels. On the newest record's day, that record counts twice |
| Hourly.MergeToHour | app/server.js:418-432 | Fewer than two records: unchanged. Otherwise the array is sorted ascending in place and the result is the first record of each hour. Its view is `HourlyMerge` of the old records |
| Hourly.FirstOfEachHour | app/server.js:422-430 | The loop keeps exactly the records that open an hour run |
| Hourly.HourlyOfSorted | app/server.js:421-431 | Reducing the sorted objects reads as `HourlyMerge` of their rows |
| Hourly.HourlyAscending | app/server.js:421-431 | The hourly result has strictly increasing hours and times |
| Hourly.HourlyKept | app/server.js:425-430 | Every kept record is an input record and the oldest of its hour |
| Hourly.HourlyFirst | app/server.js:425-430 | Every input record's hour has a kept record no newer than it |
| Buckets.OnTimeRateBound | app/server.js:434-441 | The rate never exceeds 100. It is the percentage of on-time growth over the elapsed seconds when that is at most 100, and 100 otherwise |
| Buckets.OnTimeRateSample | app/server.js:440 | 50 more seconds of on-time over 100 seconds is a rate of 50 |
| Buckets.GroupPairs | app/server.js:462-486 | The charge loop and the division loop together compute `Group` |
| Buckets.ChargePairs | app/server.js:462-479 | After the pair loop the slots and counters are `Acc` and `Counts`: each pair is charged once, to the slot of its earlier record |
| Buckets.DivideSlots | app/server.js:480-486 | Each slot is finished with its own pair count, and a slot with no pairs is left alone |
| Buckets.CountsTotal | app/server.js:478 | The pair counters add up to the number of pairs charged, one less than the list's length |
| Buckets.Telescopes | app/server.js:468-472 | After `n` pairs, each energy and the start count summed over all slots is the reading of record `n` minus that of record 0 |
| Buckets.FinishKeeps | app/server.js:480-486 | The final division keeps the energy totals. The hour profile keeps the start-count total too, since it does not divide that field |
| Buckets.GroupTotals | app/server.js:443-549 | Summed over the slots of either profile, each energy is the last record's reading minus the first's. The hour profile conserves the start count too |
| Buckets.EmptySlot | app/server.js:447-461 | A slot with no pairs ends as it started: all zero, with zero or absent voltage and frequency |
| Buckets.LastWrite | app/server.js:474-476 | A slot's voltage and frequency, and in the hour profile its arc, are those of the earlier record of the last pair charged to it |
| Buckets.OnTimeBound | app/server.js:473 | A weekday slot's on-time is at most 100 per pair. An hour slot's, after division by its count, is at most 100 |
| Grouping.WeekProfile | app/server.js:447-461 | The weekday profile always has the seven slots 0..6 |
| Grouping.HourProfile | app/server.js:507-519 | The hour profile always has the 24 slots 0..23 |
| Grouping.GroupWeek | app/server.js:443-489 | Returns `WeekProfile` of the old records. It also sorts the array and writes the day means as the daily reduction does |
| Grouping.ProfileOfDaily | app/server.js:462-488 | The week profile of a daily list is `WeekProfile` of the records it came from |
| Grouping.GroupHour | app/server.js:491-549 | At most 24 records: no profile and the array untouched. Otherwise the array is sorted ascending in place and the result is `HourProfile` of the old records |
| Grouping.ProfileOfHourly | app/server.js:521-548 | The hour profile of an hourly list is `HourProfile` of the records it came from |
| Grouping.DailyIncreasing | app/server.js:462-473 | A daily list has strictly increasing times, so every rate is defined |
| Grouping.HourlyIncreasing | app/server.js:521-532 | An hourly list has strictly increasing times, so every rate is defined |
| Grouping.GroupingData | app/server.js:651-656 | For one gear on one shared array: the day list holds the first pass's records, and their arcs are overwritten again by the week pass. The hour and week profiles see the arcs the daily pass wrote, after the hourly re-sort when there are more than 24 records. The array ends as the week pass leaves it |
| EnergySeries.HourSeries | app/server.js:586-599 | The pointer loop over newest-first records produces `HourRuns` |
| EnergySeries.FetchEnergyData | app/server.js:551-605 | A step other than `hour` or `minute` is an error with the source's message. Otherwise there is one series per listed gear: its records in minute mode, its hour runs in hour mode |
| EnergySeries.HourSeriesBound | app/server.js:586-599 | Hour mode keeps at most half of the records, rounded up |
| EnergySeries.HourRunsDescending | app/server.js:586-599 | On newest-first records, the hour series has strictly decreasing hours |
| EnergySeries.NextRunLower | app/server.js:594-598 | A run ends with a record of its own hour. The record after the one that broke the run, where the walk resumes, lies in an earlier hour |
| EnergySeries.SkippedHour | app/server.js:594-598 | For hours 5, 5, 4, 3 the series holds the second and fourth records. Hour 4 is lost |
| ErrorSearch.ErrorLightSearch | app/server.js:694-703 | The scan returns exactly `Reported` |
| ErrorSearch.ReportedCount | app/server.js:696-702 | Record `i` is emitted once per fault counter that rose from record `i - 1`. The first record is never emitted |
| ErrorSearch.ReportedOrder | app/server.js:696-702 | Emitted records keep input order |
| ErrorSearch.NothingReported | app/server.js:699-701 | Nothing is emitted exactly when no counter rises between neighbours |
| ErrorSearch.RisesZero | app/server.js:699-701 | No rise is counted exactly when no counter of the next record is above the current one |
| ErrorSearch.ReportedBound | app/server.js:696-702 | At most five emissions per adjacent pair |
| ErrorSearch.OneRise | app/server.js:696-702 | Counters 0, 1, 1 emit only the second record |
| ErrorSearch.TwoRises | app/server.js:699-701 | A record whose two counters rose is emitted twice |
| ErrorSearch.WithFailures | app/server.js:807-812 | A gear without a record makes the filter throw. Otherwise the result is the records with a non-zero lamp or gear failure count, in order |
| Status.FetchStatus | app/server.js:887-909 | A gear has a status exactly when it is listed and has records. Its status compares its newest record with the baseline of its kept records |
| Status.KeepPerGear | app/server.js:887-894 | Each listed gear keeps its records when it has fewer than three, else its newest and oldest |
| Status.StatusPerGear | app/server.js:896-909 | Every gear with kept records gets the delta of its first kept record against the second (or itself). Gears without records get none |
| Status.Delta | app/server.js:901-907 | The status carries the newest record. `isDC` holds exactly when its frequency is 0 |
| Status.BaselineIsOldest | app/server.js:889-899 | For any non-empty list, the newest record is kept first and the baseline is the oldest record |
| Status.SingleRecord | app/server.js:899-907 | A lone record is its own baseline: zero start count and zero energy use, and a zero rate whenever the elapsed time is not zero |
| Status.UncappedRate | app/server.js:904 | The status rate is not capped: 30000 seconds of on-time over 100 seconds reads as 300 |

## Left out

- The UDP socket, the Express server, the HTTP routes and the file-based primary id are I/O plumbing (app/server.js:1-60, 177-188, 291-338). So are console logging, the ORM schema and the CRUD route generators.
- The database queries (`findAll`, `findOne`, `getGearIDs`, the SQL selection in `getErrorMaxLightSearch2Month`) are not modelled. Their results are parameters: ordered lists of records, a map from gear key to gear id, and one optional record per gear.
- `getErrorPointData` only queries, and `findLast60StatusError` is never called and reads an undefined variable; neither is modelled.
- The asynchronous, overlapping frame handlers are treated one frame at a time.
- MagicValue.ScaledValue: exact rationals, not IEEE doubles. `Number(bigResult) * 10 ** scale` and parsing the dotted text round in the source, and mantissas above 2^53 lose digits there.
- Frame.Corrected: the divisions by 10, 1000 and 100 are exact, with no double rounding.
- Frame.KeyOf: uses the exact 64-bit MAC address. `Number(mac_address)` rounds addresses above 2^53, so two gears could share a server id in the source.
- Calendar.Day: `moment`'s local time zone is a fixed offset `tz`. Daylight-saving changes and locale rules other than a Sunday-first week are not modelled. The same holds for `Calendar.Hour`, `Calendar.HourOfDay` and `Calendar.Weekday`.
- Buckets.OnTimeRate: requires the later record to be strictly newer. At zero elapsed seconds the source yields Infinity or NaN. The callers meet the requirement (`Daily.DailyAscending`, `Hourly.HourlyAscending`).
- MagicValue.IntAnyLength: requires the bytes it reads to lie in the buffer (`IntInRange`). Past the end the source reads `undefined` and computes with it. `MagicValue.GetIntAnyLength` has the same requirement.
- Status.FetchStatus: the query's `limit: 1000` is not modelled. Neither is the time of day: `since` (seconds since local midnight) is a parameter. A zero `since` gives no rate (`Option.None`) where the source divides by zero.
- DailyValues.DailyMean: stated only when the newest record is unique. With several records sharing the newest time, the sort's tie order decides which one counts twice. The mean is not stated for that case.
- Daily.MergeToDaily: requires the array's objects to be distinct, as the records of one query are. An array holding the same object twice is not modelled. The same holds for `Grouping.GroupWeek` and `Grouping.GroupingData`.
- Decimal.ParseNumber: covers only texts of digits, `-` and `.`, which are all that the decoder produces. The rest of JavaScript's `Number` grammar (exponents, whitespace, hex) is not modelled.
- Equality with `===` on numbers is read as equality of reals. NaN never reaches those comparisons in the model.
