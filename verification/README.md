# A verified model of TessesFramework's calendars, time zones, mount tree, torrents and generator

The project models the parts of TessesFramework whose result is far from obvious in the code,
and proves what they are for:

* **Calendars and time zones.** The closed-form day counts of `date.h`, `iso_week.h`, `julian.h`
  and `islamic.h` against calendars that step one day at a time; `DateTime` and `TimeSpan` of
  `Date.cpp`; the POSIX time zones of `ptz.h`, both their text and their classification of local
  times by the instants that show them.
* **The mount tree.** `MountableFilesystem` as a heap of directories with vectors of children,
  proved to step a flat mount table with longest-prefix lookup, and the laws of that table over
  every run; below it the path algebra of `VFSPath` and `SubdirFilesystem`.
* **Torrent blocks.** The segments of a byte range over concatenated files, `ReadBlockAt` on a
  buffer, the crawl, and the piece table.
* **The 64-bit generator**, whose full period is proved by doubling.

| file | models |
|---|---|
| `MachineInt.dfy` | truncating division, integer conversions, the era idiom |
| `Civil.dfy`, `Weekdays.dfy`, `IsoWeek.dfy`, `Julian.dfy`, `Islamic.dfy` | the calendars |
| `DateTimes.dfy`, `TimeSpans.dfy`, `Text.dfy` | `Date.cpp`, decimal text and string helpers |
| `PosixZone.dfy`, `PosixText.dfy`, `PosixGrammar.dfy` | `ptz.h`: zones, their reading and printing, the accepted texts |
| `Paths.dfy`, `Subdir.dfy` | `VFSPath`, `SubdirFilesystem` |
| `MountLaws.dfy`, `MountTree.dfy` | `MountableFilesystem`: the table, and the heap that refines it |
| `TorrentStream.dfy`, `TorrentFile.dfy` | block addressing, crawl and pieces |
| `Lcg.dfy` | `Random` |

`hide` statements only keep definitions out of a proof that does not need them.

## Where the code falls short

Each of these is stated as an equivalence, so the good inputs are known as exactly as the bad ones.

* `from_days` keeps 16 bits of the year: it is undone by `to_days` on days -12687794 to 11248737 and
  nowhere else (`Civil.Narrowed`). The sibling calendars have their own ranges (`Julian.Narrowed`,
  `Islamic.Narrowed`, `IsoWeek.Narrowed`).
* `ToEpochNoConvert` multiplies the `int` count of days by 86400. `DateTime(e).ToEpoch()` is `e` on days
  -24855 to 24855, up to 2038-01-19, and nowhere else (`DateTimes.EpochRoundTrip`, `DateTimes.EpochFails`),
  although the fields themselves are right for all 16-bit years (`DateTimes.FieldsNameInstant`).
* The autumn and spring hours in which `ToLocal().ToEpoch()` is an hour off are
  `DateTimes.SpringFold` and `DateTimes.AutumnFold` (`DateTimes.LocalRoundTripExact`).
* A negative `TimeSpan` prints its sign twice over and reads back positive, and a day count beyond 32 bits
  wraps in the text (`TimeSpans.TextRoundTrip`).
* For a POSIX zone with transitions clear of the new year, a local time is classified by its instants
  if and only if it does not straddle both transitions of its year (`PosixZone.ClassifiedExactly`); all
  times are, if and only if the two transitions of each year are at least the saving apart
  (`PosixZone.ClassificationExact`). Three days between the rules as written guarantee that for savings
  up to a day and a half, but not for the largest the parser accepts (`PosixZone.ThreeDaysFail`,
  `PosixText.WideAccepted`); there the gaps decide (`PosixZone.ThreeDaysExact`).
* With the end of daylight time first in the year, an end that falls before the new year gets a wrong period
  (`PosixZone.SouthernSpillFails`); with the start first, such spills do no harm (`PosixZone.InfoAcrossNewYear`).
* `p.MakeRelative(base).MakeAbsolute(base)` is one level too deep for siblings, and only for them
  (`Paths.RelativeRoundTrip`).
* A subdirectory filesystem over a path with `.` or `..` inside another one is not the subdirectory
  over the joined path (`Subdir.NestedSubdirs`).
* `Unmount(p)` also takes away a mounted prefix of `p` when nothing lies beside the way to `p`
  (`MountLaws.UnmountExactInAnyTree`, `MountLaws.UnmountBelowLoses`).
* The `int` casts in `ReadBlockAt` name the right segment exactly under `TorrentStream.CastsFit`
  (`TorrentStream.CastsExact`, `TorrentStream.CastFailure`). A directory cannot be hashed exactly when some
  piece is read more than two gibibytes into a file (`TorrentFile.PiecesFitExact`), so never with a file
  longer than that and a piece (`TorrentFile.LargeFilesFail`).
* `CreateFromFilesystem` takes the path apart into parent and name and puts it together again to read the
  files. That fails for drive roots, which are hashed at `C:/C:`, and the reads' failures are ignored
  (`Paths.RejoinExact`, `TorrentFile.DriveRootHashesZeros`).

## Model

| member | source | states |
|---|---|---|
| Civil.NextDayCounts | src/HowardHinnant_date/date.h:2970-2987 | the successor of an ok date, by the leap rule and the month table, is ok and its day count is one more |
| Civil.ToDaysClosedForm | src/HowardHinnant_date/date.h:2970-2987 | the era arithmetic with truncating division equals one formula of floor divisions for every year, negative ones too |
| Civil.ToDaysInverts | src/HowardHinnant_date/date.h:2970-2987 | `from_days` undoes `to_days` on every ok date |
| Civil.FromDaysInverts | src/HowardHinnant_date/date.h:3084-3103 | before the year is narrowed to 16 bits, every day gives an ok date, and `to_days` undoes it |
| Civil.CountingAgrees | src/HowardHinnant_date/date.h:3084-3103 | `n` days after any day is `n` steps of the calendar |
| Civil.OrderAgrees | src/HowardHinnant_date/date.h:3029-3038 | one date is before another exactly when its day count is smaller |
| Civil.YearOfEra | src/HowardHinnant_date/date.h:3095-3097 | the division chain picks the year of the era whose days contain the day; day 366 only in leap years |
| Civil.MonthOfYear | src/HowardHinnant_date/date.h:3098-3100 | the month chain finds the month of the table that holds the day, and the day in it |
| Civil.YearOf | src/HowardHinnant_date/date.h:3084-3103 | the year of a day is the one whose 1 January and next 1 January enclose it |
| Civil.WithinYear | src/HowardHinnant_date/date.h:2970-2987 | a date's day count is its year's first day plus its day of the year, which is below 365 or 366 |
| Civil.LeapRuleAsCoded | src/HowardHinnant_date/date.h:1691-1697 | the leap rule as the code writes it, with C++ remainders, is the leap rule for every year, negative ones too |
| Civil.EpochIsZero | src/HowardHinnant_date/date.h:2970-2987 | 1970-01-01 is day 0 |
| Civil.Narrowed | src/HowardHinnant_date/date.h:3102 | with the 16-bit year the round trip holds on exactly the days of years -32768 to 32767 |
| Weekdays.WeekdayFromDaysAgrees | src/HowardHinnant_date/date.h:1820-1827 | for every 32-bit day the wrapping unsigned form, the signed form of the sibling calendars and `(z + 4) mod 7` agree |
| Weekdays.MinusIsModular | src/HowardHinnant_date/date.h:1902-1910 | the difference of weekdays is the number of days forward, 0 to 6 |
| Weekdays.PlusIsModular | src/HowardHinnant_date/date.h:1912-1920 | adding days to a day's weekday gives the weekday of the later day |
| Weekdays.NthToDaysInverts | src/HowardHinnant_date/date.h:3284-3292 | every ok n-th weekday of a month is restored from its day |
| Weekdays.NthFromDaysInverts | src/HowardHinnant_date/date.h:3273-3282 | every day is an ok n-th weekday of its month, and that names the day |
| Weekdays.NthNarrowed | src/HowardHinnant_date/date.h:3273-3282 | with the 16-bit year the trip holds on exactly the days of years -32768 to 32767 |
| Weekdays.LastToDaysFindsIt | src/HowardHinnant_date/date.h:3466-3473 | a day is the last such weekday of a month exactly when it has the weekday and lies in the month's final seven days |
| IsoWeek.StartIsNearestMonday | src/HowardHinnant_date/iso_week.h:1520 | a week year starts on a Monday, at most three days from 1 January |
| IsoWeek.YearLength | src/HowardHinnant_date/iso_week.h:604-613 | the last Thursdays of two Decembers running are 364 or 371 days apart, and a week year has exactly the weeks `weeknum` says |
| IsoWeek.LongYear | src/HowardHinnant_date/iso_week.h:604-613 | `is_leap` holds exactly when the civil year starts or ends on a Thursday |
| IsoWeek.FromDaysInverts | src/HowardHinnant_date/iso_week.h:1510-1527 | before years are narrowed to 16 bits, every day gives an ok week date, its week never beyond the year's count, and converts back |
| IsoWeek.ToDaysInverts | src/HowardHinnant_date/iso_week.h:1486-1492 | every ok week date is restored from its day |
| IsoWeek.NarrowedNames | src/HowardHinnant_date/iso_week.h:1510-1527 | from the first day of week year -32767 to the last of 32767, narrowing years to 16 bits and weeks to 8 changes nothing |
| IsoWeek.Narrowed | src/HowardHinnant_date/iso_week.h:1510-1527 | with every narrowing of the code the trip holds on exactly days -12687426 to 11249100 |
| IsoWeek.NarrowedLast | src/HowardHinnant_date/iso_week.h:1510-1527 | in the last 363 of those days the day is right and the year is misnamed as -32768 |
| IsoWeek.NarrowedInverts | src/HowardHinnant_date/iso_week.h:1486-1492 | with every narrowing, each ok week date of years -32767 to 32767 is restored from its day |
| IsoWeek.FromDaysIsStandard | src/HowardHinnant_date/iso_week.h:1510-1527 | year and week number are those of the week's Thursday (section 4.1.4 of ISO 8601:2004) |
| IsoWeek.LastWeekAgrees | src/HowardHinnant_date/iso_week.h:1328-1334 | the last-week form names the day of the numbered form with the year's week count |
| Julian.NextDayCounts | src/HowardHinnant_date/julian.h:2159-2176 | the successor of an ok Julian date counts one day more |
| Julian.ToDaysInverts | src/HowardHinnant_date/julian.h:2159-2176 | `from_days` undoes `to_days` on every ok date |
| Julian.FromDaysInverts | src/HowardHinnant_date/julian.h:2269-2288 | before the year is narrowed to 16 bits, every day gives an ok date, and `to_days` undoes it |
| Julian.Narrowed | src/HowardHinnant_date/julian.h:2287 | with the 16-bit year the trip holds on exactly the days -12688042 to 11248981 of years -32768 to 32767 |
| Julian.OrderAgrees | src/HowardHinnant_date/julian.h:2218-2227 | date order is day-count order |
| Islamic.LeapTermCounts | src/HowardHinnant_date/islamic.h:2139-2156 | `(11*(yoe+1)+3)/30` is the number of listed leap years before year `yoe` of the era |
| Islamic.EraLength | src/HowardHinnant_date/islamic.h:1049-1074 | thirty years with the listed leap years have 10631 days |
| Islamic.LeapRule | src/HowardHinnant_date/islamic.h:1049-1074 | the list of leap years is a congruence on the year |
| Islamic.YearOfEra | src/HowardHinnant_date/islamic.h:2249-2267 | the division that finds the year of the era is right on every day of it |
| Islamic.NextDayCounts | src/HowardHinnant_date/islamic.h:2139-2156 | the successor of an ok Islamic date counts one day more |
| Islamic.ToDaysInverts | src/HowardHinnant_date/islamic.h:2139-2156 | `from_days` undoes `to_days` on every ok date |
| Islamic.FromDaysInverts | src/HowardHinnant_date/islamic.h:2249-2267 | before the year is narrowed to 16 bits, every day gives an ok date, and `to_days` undoes it |
| Islamic.Narrowed | src/HowardHinnant_date/islamic.h:2266 | with the 16-bit year the trip holds on exactly the days -12104389 to 11119384 of years -32768 to 32767 |
| Islamic.OrderAgrees | src/HowardHinnant_date/islamic.h:2198-2207 | date order is day-count order |
| Islamic.EpochsMeet | src/HowardHinnant_date/islamic.h:2139-2156 | 1 Muharram 1, 16 July 622 (Julian) and 19 July 622 (Gregorian) are one day, a Friday |
| DateTimes.DivFloorIsFloor | src/Date/Date.cpp:55-60 | `div_floor` is floor division, and the corrected remainder belongs to it |
| DateTimes.EpochRoundTrip | src/Date/Date.cpp:61-83 | seconds to fields and back restores the seconds on exactly days -24855 to 24855, up to 2038-01-19, since the product of days and 86400 is an `int` |
| DateTimes.EpochFails | src/Date/Date.cpp:288-298 | the first instant that is lost: 2147558400, midnight of 2038-01-20, comes back as -2147408896 |
| DateTimes.FieldsNameInstant | src/Date/Date.cpp:61-83 | the stored fields name the very instant on exactly the days whose year fits 16 bits |
| DateTimes.FieldsRestored | src/Date/Date.cpp:61-83 | every proper fields of a 16-bit year are those of the instant they name |
| DateTimes.FieldsRoundTrip | src/Date/Date.cpp:288-298 | proper fields are restored from their seconds exactly when their day is one of -24855 to 24855 |
| DateTimes.FieldsWrap | src/Date/Date.cpp:288-298 | fields out of range: year, month and day keep 16, 8 and 8 bits, the clock counts on |
| DateTimes.SundayOfMonth | src/Date/Date.cpp:146-165 | the Sunday found by subtracting the weekday is the n-th Sunday of the month |
| DateTimes.DstInterval | src/Date/Date.cpp:131-194 | the branch is true exactly from the second Sunday of March 02:00 up to the first Sunday of November 02:00 |
| DateTimes.LocalRoundTrip | src/Date/Date.cpp:126-287 | when the three instants passed fit the product, `ToLocal().ToEpoch()` is off by 0 or 3600, and right iff the rule agrees on the two clocks it is asked about |
| DateTimes.LocalRoundTripExact | src/Date/Date.cpp:126-287 | then, for offsets up to twenty days, it is wrong in exactly the spring and autumn folds, given in closed form |
| DateTimes.TripFitsInside | src/Date/Date.cpp:126-287 | the three instants fit when the first is a day inside the range at both ends and the offset is at most 23 hours |
| DateTimes.AutumnAlwaysFolds | src/Date/Date.cpp:203-275 | every zone with daylight saving loses the last hour before the autumn change of every year |
| DateTimes.DateTime.FromEpochNoConvert | src/Date/Date.cpp:61-83 | stores the fields that `EpochRoundTrip` is about and keeps `isLocal` |
| DateTimes.DateTime.ToEpochNoConvert | src/Date/Date.cpp:288-298 | computes the seconds, with the `int` product, that `FieldsRoundTrip` is about |
| DateTimes.DateTime.SetToLocal | src/Date/Date.cpp:126-197 | changes a UTC object to the fields of its local seconds, and no other |
| DateTimes.DateTime.SetToUTC | src/Date/Date.cpp:203-275 | changes a local object to the fields of its UTC seconds, and no other |
| DateTimes.DateTime.ToLocal | src/Date/Date.cpp:198-202 | a fresh local object; the original is untouched |
| DateTimes.DateTime.ToEpoch | src/Date/Date.cpp:281-287 | UTC seconds of either kind of object, which it leaves as it was |
| DateTimes.EpochThereAndBack | src/Date/Date.cpp:281-287 | on objects: `DateTime(e).ToEpoch()` is `e` exactly on the days of the range, and `ToLocal().ToEpoch()`, when its instants fit, is `e` or an hour off, wrong in exactly the folds |
| TimeSpans.Components | src/Date/Date.cpp:689-692 | the parts carry the sign of the span and rebuild it |
| TimeSpans.SetRebuilds | src/Date/Date.cpp:664-669 | setting a span from its own components restores it exactly when the days fit 32 bits |
| TimeSpans.TextReadsBack | src/Date/Date.cpp:777-819 | parsing the printed text of any span, slim or not, gives its absolute value |
| TimeSpans.TextRoundTrip | src/Date/Date.cpp:737-819 | for every span, the text form is faithful exactly when the span is not negative and its days fit 32 bits |
| TimeSpans.Layout | src/Date/Date.cpp:737-776 | the text of every span that is not negative: days from a day on, two places for hours, minutes and seconds; slim, minutes alone below an hour and hours in one place below ten |
| TimeSpans.LayoutBelowZero | src/Date/Date.cpp:737-776 | below zero the sign stands in front of the whole and of each part |
| TimeSpans.TwoPlaces | src/Date/Date.cpp:748-752 | a number below a hundred takes two digits, a negative digit its sign |
| TimeSpans.ParseNegative | src/Date/Date.cpp:779-781 | a leading minus negates the value of the rest, and the empty text is refused |
| TimeSpans.ParseTwo | src/Date/Date.cpp:798-802 | `a:b` is minutes and seconds, whatever `stoll` reads in them |
| TimeSpans.ParseThree | src/Date/Date.cpp:803-806 | `a:b:c` is hours, minutes and seconds |
| TimeSpans.ParseWithDays | src/Date/Date.cpp:791-806 | a point in the first part splits off days, also before minutes and seconds |
| TimeSpans.ParseCounts | src/Date/Date.cpp:789-790 | one part, or more than three, is refused |
| TimeSpans.TimeSpan.Set | src/Date/Date.cpp:664-669 | the total is the weighted sum that `SetRebuilds` inverts |
| TimeSpans.TimeSpan.SetMinutes | src/Date/Date.cpp:682-684 | only the minutes change, also in a negative span |
| TimeSpans.TimeSpan.ToString | src/Date/Date.cpp:737-776 | builds the text that `TextReadsBack` parses |
| TimeSpans.TimeSpan.TryParse | src/Date/Date.cpp:777-819 | succeeds and stores what the parse function gives, and otherwise changes nothing |
| Text.StollOfDecimal | src/Date/Date.cpp:790-806 | a printed number, padded to two places or not, is read back by `stoll` |
| Text.StollReads | src/Date/Date.cpp:794-806 | spaces, one sign, a digit run and anything after it: the number, or an exception beyond 64 bits |
| Text.StollRejects | src/Date/Date.cpp:794-806 | an exception when no digit follows the spaces and the sign |
| Text.SpaceCharacters | src/Date/Date.cpp:794-806 | the six characters that are skipped |
| Text.NoLeadingZero | src/Date/Date.cpp:746-773 | printed numbers have no leading zero |
| Text.SplitJoin | src/Http/HttpUtils.cpp:520-549 | splitting takes off the piece before the first delimiter and splits the rest |
| Text.SplitOnce | src/Http/HttpUtils.cpp:536-541 | text without the delimiter is one piece |
| Lcg.Random.Next | src/Random.cpp:35 | stores and returns the next state of the 64-bit generator |
| Lcg.KnownStates | src/Random.cpp:35 | three single steps in numbers, two of them at the increment and the multiplier, one that wraps |
| Lcg.StepsArePow2Affine | src/Random.cpp:35 | `2^k` steps are one affine map with multiplier 1 modulo 4 and odd increment, up to the factor `2^k` |
| Lcg.Jump | src/Random.cpp:35 | `2^k` steps change nothing below bit `k` and always flip bit `k` |
| Lcg.NoRepetition | src/Random.cpp:35 | from any seed the first 2^64 states are pairwise distinct |
| Lcg.FullCover | src/Random.cpp:35 | every 64-bit value is one of them |
| Lcg.ReturnsToSeed | src/Random.cpp:35 | step 2^64 is the seed |
| Lcg.LowBitsCycle | src/Random.cpp:35 | the low `k` bits alone repeat every `2^k` calls |
| PosixZone.JulianSkipsLeapDay | src/HowardHinnant_date/ptz.h:155-157 | a rule `Jn` names the same month and day in every year |
| PosixZone.JulianDay | src/HowardHinnant_date/ptz.h:155-157 | that month and day are those of the `n`-th day of a common year |
| PosixZone.ZeroBasedDay | src/HowardHinnant_date/ptz.h:161-163 | a rule `n` counts from zero and counts 29 February; 365 of a common year is the next 1 January |
| PosixZone.MonthRuleMeaning | src/HowardHinnant_date/ptz.h:158-160 | a rule `Mm.n.d` names the n-th such weekday of the month, or for 5 the one in its last seven days |
| PosixZone.OffsetNear | src/HowardHinnant_date/ptz.h:437-517 | an instant has the daylight offset exactly between that year's start and end, in both hemispheres, also across the new year |
| PosixZone.InfoFields | src/HowardHinnant_date/ptz.h:437-517 | abbreviation, offset and saving of every instant, the saving in minutes rounded up |
| PosixZone.TransitionsOnTheClock | src/HowardHinnant_date/ptz.h:300-326 | the clock changes when it shows the day and time the rule names, and goes on from there moved by the saving |
| PosixZone.InfoAcrossNewYear | src/HowardHinnant_date/ptz.h:456-460 | with the start first, transitions may spill into the neighbouring years: the adjusted year still gives the period the instant lies in |
| PosixZone.SouthernSpillFails | src/HowardHinnant_date/ptz.h:456-510 | with the end first, an end that spills back over the new year gets a period it does not lie in |
| PosixZone.PeriodsPartition | src/HowardHinnant_date/ptz.h:437-517 | the period reported for an instant contains it, and every instant of the period reports the same |
| PosixZone.PeriodMeaning | src/HowardHinnant_date/ptz.h:437-517 | no transition of any year lies inside a period; it opens with a start and is daylight, or with an end and is standard |
| PosixZone.Candidates | src/HowardHinnant_date/ptz.h:519-591 | for a time that does not straddle both transitions, the classification in terms of which of its two candidate instants shows it |
| PosixZone.ClassifiedExactly | src/HowardHinnant_date/ptz.h:519-591 | nonexistent, ambiguous and unique mean no, two or exactly one instant with that local time, exactly when its two candidate instants do not lie on different sides of both transitions of its year |
| PosixZone.LocalClassification | src/HowardHinnant_date/ptz.h:519-591 | so every local time is classified by its instants when the transitions of each year are at least the saving apart |
| PosixZone.GapIsNeeded | src/HowardHinnant_date/ptz.h:519-591 | transitions of a year closer than the saving leave a local time that is misreported |
| PosixZone.ClassificationExact | src/HowardHinnant_date/ptz.h:519-591 | every local time is classified by its instants if and only if the transitions of each year are at least the saving apart |
| PosixZone.LocalInfoPeriods | src/HowardHinnant_date/ptz.h:545-582 | for a time that is not unique, the two periods are those just before and after the transition it falls on, exactly when the two transitions of its year differ |
| PosixZone.UniquePeriod | src/HowardHinnant_date/ptz.h:583-587 | for a unique time, however close the transitions, the one period is that of the instant that shows it |
| PosixZone.ToSysInverts | src/HowardHinnant_date/ptz.h:593-607 | `to_sys` undoes `to_local` on exactly the instants whose local time is unique, however close the transitions; a shown time is nonexistent only if it straddles both |
| PosixZone.ToSysThrows | src/HowardHinnant_date/ptz.h:593-607 | for a time that does not straddle both transitions, each exception is thrown exactly when no, or two, instants show it |
| PosixZone.ChooseOrdersAmbiguous | src/HowardHinnant_date/ptz.h:609-627 | both choices show the ambiguous time, the earliest before the latest, exactly when it does not straddle both transitions |
| PosixZone.ChooseUnique | src/HowardHinnant_date/ptz.h:609-627 | a unique time resolves to the instant that shows it, whichever choice is made |
| PosixZone.ChooseJumpsNonexistent | src/HowardHinnant_date/ptz.h:609-627 | a nonexistent time resolves to the instant at which the clock jumps over it, exactly when the two transitions of its year differ |
| PosixZone.ConstantZone | src/HowardHinnant_date/ptz.h:342-370 | without rules every local time is unique, `to_sys` with or without a choice undoes `to_local`, and abbreviation, offset and saving are those of the one name left |
| PosixZone.ConstantPeriod | src/HowardHinnant_date/ptz.h:355-356 | its period begins with year -32767 and ends at the last second of year 32767 |
| PosixZone.ThreeDaysSuffice | src/HowardHinnant_date/ptz.h:437-591 | rules three days from the new year and from each other, in one order, are separated when the saving is at most a day and a half |
| PosixZone.ThreeDaysAway | src/HowardHinnant_date/ptz.h:437-517 | for every saving in the parser's range such rules keep the transitions away from the new year and in one order |
| PosixZone.ThreeDaysExact | src/HowardHinnant_date/ptz.h:519-591 | for rules three days from the new year and each other, all local times are classified by their instants if and only if every gap reaches the saving |
| PosixZone.ThreeDaysFail | src/HowardHinnant_date/ptz.h:519-591 | a zone of two days' saving, rules three days apart, where each year a local time that one instant shows is reported nonexistent |
| PosixZone.MonthRulesSuffice | src/HowardHinnant_date/ptz.h:519-591 | month rules from February to November, two months apart, meet the condition of the theorems |
| PosixText.AcceptedIsCanonical | src/HowardHinnant_date/ptz.h:372-435 | what the constructor accepts has fields in range, names without `>`, and both rules or none |
| PosixText.AcceptedInRange | src/HowardHinnant_date/ptz.h:372-435 | accepted zones have the offsets the period theorems ask for |
| PosixText.WideAccepted | src/HowardHinnant_date/ptz.h:372-435 | the constructor accepts the zone of `PosixZone.ThreeDaysFail`, written as its name |
| PosixGrammar.FormReads | src/HowardHinnant_date/ptz.h:372-435 | every well-written form, with signs, leading zeros, zero minutes and quoted letters, is read as what it means, or refused for short names |
| PosixGrammar.AcceptedForm | src/HowardHinnant_date/ptz.h:372-435 | and every accepted text is the text of such a form |
| PosixGrammar.AcceptedExactly | src/HowardHinnant_date/ptz.h:372-435 | so a text is accepted as a zone exactly when it is written that way and means that zone |
| PosixGrammar.SignsRead | src/HowardHinnant_date/ptz.h:842-861 | plus in front of any readable time changes nothing, minus negates, no sign is plus |
| PosixGrammar.ClockReads | src/HowardHinnant_date/ptz.h:863-894 | hours, minutes and seconds of one or two digits are read as far as they are written, also when zero |
| PosixGrammar.RuleReads | src/HowardHinnant_date/ptz.h:745-808 | rules of all modes with leading zeros and any written time of day, two o'clock when none is |
| PosixGrammar.PrintedTime | src/HowardHinnant_date/ptz.h:170-199 | a time is printed with bare hours, then two places each, as far as they are not zero |
| PosixGrammar.PrintedParts | src/HowardHinnant_date/ptz.h:651-708 | letters are not quoted, an hour's saving and two o'clock are not printed |
| PosixText.AlphaCharacters | src/HowardHinnant_date/ptz.h:810-840 | the letters of a bare name, by code |
| PosixText.NameReadsBack | src/HowardHinnant_date/ptz.h:651-708 | constructing from the name of any canonical zone gives that zone |
| PosixText.RoundTrip | src/HowardHinnant_date/ptz.h:372-435 | for every accepted text, constructing again from `name()` restores abbreviations, offset, saving and both rules |
| PosixText.NamesAreDistinct | src/HowardHinnant_date/ptz.h:651-708 | different canonical zones have different names |
| PosixText.ReadTime | src/HowardHinnant_date/ptz.h:863-894 | a printed time of up to 24:59:59 reads back, minutes and seconds left out when zero |
| PosixText.ReadOffset | src/HowardHinnant_date/ptz.h:842-861 | a printed offset of either sign reads back, negated; `PosixGrammar.SignsRead` has the signs that are not printed |
| PosixText.ReadAbbrev | src/HowardHinnant_date/ptz.h:810-840 | a printed abbreviation reads back, in angle brackets or plain |
| PosixText.ReadRule | src/HowardHinnant_date/ptz.h:170-224 | a printed rule of any mode reads back with its time of day |
| PosixText.ReadUnsignedAt | src/HowardHinnant_date/ptz.h:896-908 | the digit loop reads the number of the longest digit run within the limit, and stops after it |
| PosixText.ReadNameAt | src/HowardHinnant_date/ptz.h:810-840 | the two name loops read the bracketed or plain name and stop after it |
| Paths.CollapseRelativeParents | src/Filesystem/VFS.cpp:280-298 | the loop is the stack fold that `DotIgnored`, `ParentCancels`, `CollapseAtRoot` and `CollapseFixesClean` describe |
| Paths.CollapseIsClean | src/Filesystem/VFS.cpp:280-298 | no "." or ".." is left, and collapsing again changes nothing |
| Paths.CollapseFixesClean | src/Filesystem/VFS.cpp:280-298 | a path is its own collapse exactly when it has neither |
| Paths.FoldConcat | src/Filesystem/VFS.cpp:280-298 | collapsing joined components is collapsing the second on the stack of the first |
| Paths.CollapseSlash | src/Filesystem/VFS.cpp:419-423 | `collapse(p/q)` is `collapse(collapse(p)/q)` |
| Paths.CollapseAtRoot | src/Filesystem/VFS.cpp:283-287 | leading ".." components are lost |
| Paths.DotIgnored | src/Filesystem/VFS.cpp:288-289 | a "." anywhere in a path goes without trace |
| Paths.ParentCancels | src/Filesystem/VFS.cpp:284-287 | a ".." takes away exactly the name before it |
| Paths.SplitPathLoop | src/Filesystem/VFS.cpp:306-334 | the character loop returns the nonempty pieces between slashes |
| Paths.SplitJoined | src/Filesystem/VFS.cpp:306-334 | splitting text joined by a slash splits both sides |
| Paths.SplitGivesComponents | src/Filesystem/VFS.cpp:306-334 | every piece is nonempty and slash-free |
| Paths.ToString | src/Filesystem/VFS.cpp:446-462 | the loop prints the text that `TextRoundTrip` parses |
| Paths.TextRoundTrip | src/Filesystem/VFS.cpp:399-416 | parsing the printed path restores it exactly when its components are nonempty and slash-free and it is not a relative path that starts like a drive |
| Paths.ParseSlashes | src/Filesystem/VFS.cpp:399-416 | a leading slash makes any text absolute, doubled and trailing slashes add nothing |
| Paths.ParseComponent | src/Filesystem/VFS.cpp:399-416 | text that starts with a component is absolute exactly when that ends in a colon |
| Paths.TextOfShort | src/Filesystem/VFS.cpp:446-462 | how the roots, the empty path and single components print |
| Paths.TextOfLonger | src/Filesystem/VFS.cpp:446-462 | one component more is one slash more, except after a drive root, which has it |
| Paths.MakeRelative | src/Filesystem/VFS.cpp:250-279 | the loops compute the relative path that the next two lemmas resolve |
| Paths.RelativeRoundTrip | src/Filesystem/VFS.cpp:175-180 | for absolute clean paths, resolving against the base gives the path back exactly when the two are not siblings |
| Paths.SiblingRoundTrip | src/Filesystem/VFS.cpp:426-438 | siblings resolve against the base's parent, exactly when the base is not a drive root |
| Paths.RelativeIsShortest | src/Filesystem/VFS.cpp:250-279 | no relative path that resolves to the same path has fewer components |
| Paths.AlreadyThere | src/Filesystem/VFS.cpp:175-180 | resolving an absolute path and making a relative one relative change nothing |
| Paths.RejoinExact | src/Filesystem/VFS.cpp:424-444 | `p.GetParent() / p.GetFileName()` has the components of `p` exactly when there are none, or the last is nonempty and slash-free and `p` is no drive root; it is `p` unless `p` is the empty relative path |
| Paths.RejoinDriveRoot | src/Filesystem/VFS.cpp:424-444 | of a drive root `C:/` it is `C:/C:` |
| Subdir.SubdirFilesystem.ToParent | src/Filesystem/SubdirFilesystem.cpp:44-46 | the translation that `Confined` keeps inside the directory |
| Subdir.SubdirFilesystem.FromParent | src/Filesystem/SubdirFilesystem.cpp:29-42 | the loop drops the directory's components, and gives the root for a shorter path |
| Subdir.TranslateRoundTrip | src/Filesystem/SubdirFilesystem.cpp:29-46 | out and back is the collapsed path, made absolute |
| Subdir.Confined | src/Filesystem/SubdirFilesystem.cpp:44-46 | no path leads out of a directory without "." or "..": the translated path is collapsed and below it |
| Subdir.NestedSubdirs | src/Filesystem/SubdirFilesystem.cpp:44-46 | two nested directories translate every path as the joined one does, exactly when the inner path is collapsed |
| MountLaws.MountedTrimmed | src/Filesystem/MountableFilesystem.cpp:408-456 | mounting a filesystem leaves no branch without a filesystem at its end |
| MountLaws.UnmountedKeeps | src/Filesystem/MountableFilesystem.cpp:458-504 | unmounting keeps the nodes a tree, and trimmed |
| MountLaws.UnmountedMounts | src/Filesystem/MountableFilesystem.cpp:458-504 | which mounts survive `Unmount(p)`, from the mount map alone, each with its filesystem |
| MountLaws.UnmountLocal | src/Filesystem/MountableFilesystem.cpp:458-504 | in every tree, also one with null mounts, `Unmount(p)` changes no mount point that is not a prefix of `p` |
| MountLaws.UnmountExactInAnyTree | src/Filesystem/MountableFilesystem.cpp:458-504 | in every tree `Unmount(p)` removes `p` and nothing else exactly when every other mounted prefix has a node beside the way to `p` |
| MountLaws.UnmountExact | src/Filesystem/MountableFilesystem.cpp:458-504 | in a trimmed tree the condition can be read off the mounts: every other mounted prefix has a mount beside the way to `p` |
| MountLaws.UnmountAlone | src/Filesystem/MountableFilesystem.cpp:458-504 | in every tree, when no proper prefix of `p` is mounted it removes exactly `p` |
| MountLaws.UnmountBelowLoses | src/Filesystem/MountableFilesystem.cpp:478-481 | unmounting `/a/b` takes away a lone mount at `/a` |
| MountLaws.UnmountUndoesMount | src/Filesystem/MountableFilesystem.cpp:408-504 | unmounting a freshly mounted free position restores the mount map, in every tree under the same exact condition |
| MountLaws.RunInvariant | src/Filesystem/MountableFilesystem.cpp:408-504 | after every run the nodes form a tree, trimmed if no null filesystem was mounted |
| MountLaws.RunOfMounts | src/Filesystem/MountableFilesystem.cpp:408-456 | after any run of mounts the table holds for each path but the root what was mounted there last, and nothing where that was null |
| MountTree.MountableFilesystem.constructor | src/Filesystem/MountableFilesystem.cpp:28-30 | the empty tree is the empty table |
| MountTree.MountableFilesystem.Mount | src/Filesystem/MountableFilesystem.cpp:408-456 | the walk over the heap keeps an unshared tree with unique names, and steps the table: all prefixes become nodes, the last gets the filesystem |
| MountTree.MountableFilesystem.MyUmount | src/Filesystem/MountableFilesystem.cpp:458-486 | clears the target, deletes exactly the nodes on the way with nothing beside it, and reports whether `dir` itself was deleted |
| MountTree.MountableFilesystem.UmountChild | src/Filesystem/MountableFilesystem.cpp:470-482 | after the recursion and the erasure the vector holds no deleted node, and is empty exactly when all below was on the way |
| MountTree.MountableFilesystem.Unmount | src/Filesystem/MountableFilesystem.cpp:488-504 | the heap steps the table, and no deleted node stays reachable |
| MountTree.MountableFilesystem.GetFS | src/Filesystem/MountableFilesystem.cpp:41-90 | walking down with the best match so far gives the filesystem of the longest mounted prefix and the path left for it |
| MountTree.MountableFilesystem.Resolve | src/Filesystem/MountableFilesystem.cpp:92-98 | the collapsed path is served by its longest mounted prefix, or by the root with the whole path |
| MountTree.MountableFilesystem.TableIsClosed | src/Filesystem/MountableFilesystem.cpp:408-504 | the table of a valid heap satisfies what the laws of the table ask |
| MountTree.Replay | src/Filesystem/MountableFilesystem.cpp:408-504 | any run of `Mount` and `Unmount` on a new heap leaves a valid tree whose table is the run of the table steps, and trimmed if no null filesystem was mounted |
| MountTree.ReplayAndResolve | src/Filesystem/MountableFilesystem.cpp:41-101 | what a lookup answers after any run on the heap: the longest mounted prefix of the collapsed path and the rest, or the root; after mounts alone, the longest prefix whose last mount gave it a filesystem |
| MountTree.NamesUnique | src/Filesystem/MountableFilesystem.cpp:408-456 | children of one node have different names |
| MountTree.GrowTree | src/Filesystem/MountableFilesystem.cpp:426-434 | appending a new leaf keeps the unshared tree |
| MountTree.PruneTree | src/Filesystem/MountableFilesystem.cpp:474-476 | erasing a leaf keeps the unshared tree |
| TorrentStream.WideInBounds | src/BitTorrent/TorrentStream.cpp:89-95 | a visited file's segment is nonnegative and in bounds of file and buffer, and the two sides name the same bytes |
| TorrentStream.VisitedTouches | src/BitTorrent/TorrentStream.cpp:76-86 | a file is visited exactly when it touches the range, even if only end to end |
| TorrentStream.CastsExact | src/BitTorrent/TorrentStream.cpp:93-95 | the segment with its `int` casts is the right one exactly when a stated range condition holds |
| TorrentStream.CastFailure | src/BitTorrent/TorrentStream.cpp:94-95 | one byte past two gibibytes into a larger file, the buffer position is 2147483647 instead of 0 |
| TorrentStream.SmallFilesFit | src/BitTorrent/TorrentStream.cpp:89-95 | the condition holds for files of at most two gibibytes and shorter blocks |
| TorrentStream.SegmentIsOverlap | src/BitTorrent/TorrentStream.cpp:109-147 | a buffer position is in a file's segment exactly when its byte is in that file |
| TorrentStream.SegmentsCover | src/BitTorrent/TorrentStream.cpp:109-147 | every byte of the range inside the files is in some segment |
| TorrentStream.SegmentsDisjoint | src/BitTorrent/TorrentStream.cpp:109-147 | and in only one |
| TorrentStream.ReadBlockAt | src/BitTorrent/TorrentStream.cpp:71-105 | succeeds exactly when every visited file exists; with the listed lengths it fills the buffer from the concatenation, empty files included, up to the first visited file that is missing |
| TorrentStream.ReadingIsFill | src/BitTorrent/TorrentStream.cpp:71-105 | reading segment after segment from files of the listed lengths is filling the buffer from their concatenation |
| TorrentStream.ReadEntryBytes | src/BitTorrent/TorrentStream.cpp:87-101 | what one file contributes, byte by byte, also when it is shorter or longer than listed |
| TorrentStream.FillBytes | src/BitTorrent/TorrentStream.cpp:71-105 | the filled buffer, byte by byte: the range of the content, and the old bytes past its end or past `len` |
| TorrentStream.ReadSingleBlockAt | src/BitTorrent/TorrentStream.cpp:36-44 | the one-file stream fills from its file, leaves what lies past the end, and touches nothing if the file is missing |
| TorrentFile.Crawler.Crawl | src/BitTorrent/TorrentFile.cpp:321-340 | the recursive loop appends the listing that `ListingExact` describes, in directory order, and adds the number of bytes |
| TorrentFile.ListingIsFlat | src/BitTorrent/TorrentFile.cpp:321-343 | every listed path opens a file of the listed length, and their bytes in order are those of the tree |
| TorrentFile.ListingServes | src/BitTorrent/TorrentFile.cpp:321-345 | so the listing of a directory is what the directory stream needs, and its lengths add up |
| TorrentFile.FileListed | src/BitTorrent/TorrentFile.cpp:325-339 | every file of the tree is listed with its length, at any depth and also when empty |
| TorrentFile.ListingExact | src/BitTorrent/TorrentFile.cpp:325-339 | the entries are exactly the files of the tree with their lengths, and no path occurs twice |
| TorrentFile.ListedSize | src/BitTorrent/TorrentFile.cpp:33-47 | the entry lengths sum to the number of bytes of the tree |
| TorrentFile.TorrentFileInfo.GetTorrentFileSize | src/BitTorrent/TorrentFile.cpp:33-47 | the single length, or the end of the last file of the listing |
| TorrentFile.CountIsCeiling | src/BitTorrent/TorrentFile.cpp:345-349 | the piece count is the least number of pieces that covers the content |
| TorrentFile.PieceBounds | src/BitTorrent/TorrentFile.cpp:294-298 | piece `i` is nonempty and ends at `min((i+1)*L, total)`; the last ends with the content |
| TorrentFile.PiecesPartition | src/BitTorrent/TorrentFile.cpp:288-302 | the pieces joined are the content |
| TorrentFile.TableEntry | src/BitTorrent/TorrentFile.cpp:288-302 | the table has twenty bytes a piece, and digest `i` is the hash of piece `i` |
| TorrentFile.DigestEntry | src/BitTorrent/TorrentFile.cpp:288-302 | with any source, digest `i` is the hash of what the one buffer holds after the reads of pieces 0 to `i` |
| TorrentFile.DigestsOfContent | src/BitTorrent/TorrentFile.cpp:288-302 | when the files are there, those are the digests of the pieces of the content |
| TorrentFile.ZerosHashed | src/BitTorrent/TorrentFile.cpp:288-302 | when none of them is there, zeros are hashed, and no error is raised |
| TorrentFile.StaleHashed | src/BitTorrent/TorrentFile.cpp:288-302 | where the first visited file of a piece is missing, the bytes of the piece before are hashed again |
| TorrentFile.SourceServes | src/BitTorrent/TorrentFile.cpp:272-286 | when the components survive being split into parent and name, the stream serves the bytes of the tree that was listed |
| TorrentFile.DriveRootHashesZeros | src/BitTorrent/TorrentFile.cpp:354-355 | a drive root is listed in one place and hashed in another: zeros where that does not exist |
| TorrentFile.SmallFilesHash | src/BitTorrent/TorrentFile.cpp:288-302 | files of at most two gibibytes and shorter pieces never meet the casts |
| TorrentFile.PiecesFitExact | src/BitTorrent/TorrentFile.cpp:288-302 | the casts do no harm to any piece exactly when no piece is read more than two gibibytes past the start of a file it visits |
| TorrentFile.LargeFilesFail | src/BitTorrent/TorrentFile.cpp:288-302 | in particular they do when a file is longer than two gibibytes and a piece |
| TorrentFile.TorrentFileInfo.ParsePieces | src/BitTorrent/TorrentFile.cpp:288-302 | overwriting slot after slot through one buffer leaves the digest table of any source, stale bytes included, and the piece table of one that serves its files |
| TorrentFile.TorrentFileInfo.CreateFromFilesystem | src/BitTorrent/TorrentFile.cpp:303-355 | lists the tree at the path and stores the digests of the stream at parent and name; the piece table of the listed bytes when the path survives that; a missing path fails, with the fields set until then |

## Left out

- Input and output, sockets, HTTP, console, processes, timers and the other filesystems: a file is a byte sequence, a directory a list of names, a mounted filesystem an identity.
- Stream and format code of `date.h`: locale facets and iostream state.
- The 16-bit year of `PosixZone`: years are unbounded there, as in the calendars before their `FromDays16`.
- The 64-bit range of seconds, offsets and byte counts: unbounded here. The 32-bit casts and products of `DateTimes`, `TimeSpans` and `TorrentStream` are spelled out.
- Signed overflow is undefined in C++. `DateTimes.EpochOf` wraps as two's complement hardware does; the sum inside `from_days` within 719468 days of either end of `int` is unbounded.
- DateTimes.LocalRoundTrip: asks that the instant, its local seconds and the returned seconds fit the product of `ToEpochNoConvert`; past that the code overflows, and only the value of `DateTimes.Trip` is given.
- The C library's time zone and daylight flag are the parameter `Zone` of `DateTimes`; the clock, `NowUTC` and `SetToNow` are left out, the last of which repeats the branch of `SetToLocal`.
- DateTimes.LocalRoundTripExact: asks for the same, and for an offset of at most twenty days, which keeps the fold in the year of the instant; `DateTimes.LocalRoundTrip` holds for every offset.
- `TryParseHttpDate`: its month loop does not advance.
- `TimeSpan` sums that overflow 64 bits inside `TryParse`, the one-line setters other than `SetMinutes`, and `FromHours` and `FromDays`.
- `Random::Next(min, max)` and `NextByte`: a range claim about floating point.
- Messages and positions of the parse errors of `ptz.h`: None stands for each. The reading functions take the text that is left instead of an index, except for the two that loop.
- Fractions of a second in `ptz.h`, and `operator==` and streaming of its types.
- PosixZone.ClassifiedExactly: about zones whose transitions keep the larger offset from the new year and the same order every year; for transitions that cross the new year only `get_info` of instants is treated (`PosixZone.InfoAcrossNewYear`, `PosixZone.SouthernSpillFails`).
- `get_info` asks only whether the start rule is set; the model asks for both, and the parser sets both or neither (`PosixText.AcceptedIsCanonical`).
- The Windows variant of `VFSPath`, URI paths, extensions and the current directory.
- `destRoot` of `GetFS`, the relative flag of the path it returns, the `owns` field, the destructors, and the operations that forward to the filesystem found.
- `EnumeratePaths` on the mount tree: its child list is that of the last matched level.
- The constructor of `SubdirFilesystem` and its forwarding operations.
- What `WriteBlockAt` does to a file's old content: only its segments, which it shares with `ReadBlockAt`, are modelled; also the single-file write and the locks.
- TorrentStream.ReadBlockAt: asks for `CastsFit` of every visited file, also where the segment is empty, since the code forms the buffer position there too; listed lengths are not negative.
- TorrentFile.TorrentFileInfo.CreateFromFilesystem: a piece length of zero or less, which the code divides by, is excluded, and the pieces of a directory fit the casts of `TorrentStream` (`TorrentFile.PiecesFitExact` says when): otherwise the code writes outside its buffer, which has no result to model. The filesystem looks a path up by its components, whether relative or not, and does not change; the directory that the stream's constructor creates when it is missing is read as empty.
- The hash is a parameter that gives twenty bytes; the Bencode dictionary and the torrent files around it are left out.
