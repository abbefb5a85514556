/**
 * ISO week dates of iso_week.h: `year::is_leap`, `year_lastweek::weeknum`,
 * `year_weeknum_weekday` and `year_lastweek_weekday` conversions.
 *
 * The reference is section 4.1.4 of ISO 8601:2004: weeks start on Monday and belong
 * to the year that holds their Thursday; week 1 holds the year's first Thursday.
 */
module IsoWeek {
  import opened MachineInt
  import Civil
  import opened Weekdays

  /** Weekday 1 is Monday and 7 is Sunday. */
  datatype WeekDate = WeekDate(year: int, week: nat, weekday: nat)

  const MON := 1
  const THU := 4
  const SUN := 7

  /** `iso_week::weekday::weekday_from_days`. */
  function IsoWeekday(z: int): nat {
    if WeekdayOf(z) != 0 then WeekdayOf(z) else 7
  }

  /** `operator-` of iso_week weekdays, on 32-bit unsigned integers. */
  function IsoMinus(x: nat, y: nat): nat {
    var diff := ToUint32(x - y);
    if diff <= 6 then diff else ToUint32(diff + 7)
  }

  /** `year/dec/thu[last]` as a day number. */
  function LastThursday(y: int): int {
    LastToDays(y, 12, THURSDAY)
  }

  predicate IsLeap(y: int) {
    LastThursday(y) - LastThursday(y - 1) != 7 * 52
  }

  /** `year_lastweek::weeknum`. */
  function WeekCount(y: int): nat {
    if IsLeap(y) then 53 else 52
  }

  predicate Ok(w: WeekDate) {
    1 <= w.weekday <= 7 && 1 <= w.week <= WeekCount(w.year)
  }

  function Start(y: int): int {
    LastThursday(y - 1) + IsoMinus(MON, THU)
  }

  /** `year_weeknum_weekday::operator sys_days`; the first difference is of date.h weekdays. */
  function ToDays(w: WeekDate): int {
    LastThursday(w.year - 1) + Minus(MON, THURSDAY) + 7 * (w.week - 1) + IsoMinus(w.weekday, MON)
  }

  /** `year_lastweek_weekday::operator sys_days`. */
  function LastWeekToDays(y: int, wd: nat): int {
    LastThursday(y) + IsoMinus(SUN, THU) - IsoMinus(SUN, wd)
  }

  /** `year_weeknum_weekday::from_days`. */
  function FromDays(z: int): WeekDate {
    var y0 := Civil.FromDays(z + 3).year;
    var y := if z < Start(y0) then y0 - 1 else y0;
    hide LastThursday, Civil.FromDays, WeekdayOf;
    YearFound(z);
    WeekDate(y, WeekNumber(Start(y), z), IsoWeekday(z))
  }

  function WeekNumber(start: int, z: int): nat
    requires start <= z
  {
    (z - start) / 7 + 1
  }

  // ----- Where a week year starts -----

  /** A week year starts on the Monday nearest to 1 January. */
  lemma StartIsNearestMonday(y: int)
    ensures IsoWeekday(Start(y)) == MON
    ensures Civil.JanFirst(y) - 3 <= Start(y) <= Civil.JanFirst(y) + 3
    ensures LastThursday(y - 1) == Start(y) - 4
  {
    hide WeekdayOf, Minus, Civil.JanFirst, Civil.ToDays, Civil.FromDays;
    var eve := Civil.Date(y - 1, 12, 31);
    LastToDaysFindsIt(y - 1, 12, THURSDAY, LastThursday(y - 1));
    LastBack(Civil.ToDays(eve), THURSDAY);
    EveOfYear(y);
    WeekdayShift(LastThursday(y - 1), 4);
  }

  lemma EveOfYear(y: int)
    ensures Civil.ToDays(Civil.Date(y - 1, 12, 31)) == Civil.JanFirst(y) - 1
  {
    hide Civil.ToDays, Civil.IsLeap;
    Civil.NextDayCounts(Civil.Date(y - 1, 12, 31));
  }

  /** The last Thursdays of consecutive Decembers are 52 or 53 weeks apart. */
  lemma YearLength(y: int)
    ensures Start(y + 1) - Start(y) == 7 * WeekCount(y)
    ensures LastThursday(y) - LastThursday(y - 1) == 364 || LastThursday(y) - LastThursday(y - 1) == 371
  {
    hide LastThursday, Start, Civil.JanFirst, Civil.IsLeap, Civil.DaysBefore;
    StartIsNearestMonday(y);
    StartIsNearestMonday(y + 1);
    Civil.JanFirstStep(y);
  }

  lemma YearFound(z: int)
    ensures var y0 := Civil.FromDays(z + 3).year;
            var y := if z < Start(y0) then y0 - 1 else y0;
            Start(y) <= z < Start(y + 1)
  {
    hide Start, IsoWeekday, LastThursday, Civil.JanFirst, Civil.FromDays, Civil.IsLeap, Civil.DaysBefore;
    var y0 := Civil.FromDays(z + 3).year;
    Civil.YearOf(z + 3, y0);
    StartIsNearestMonday(y0 - 1);
    StartIsNearestMonday(y0);
    StartIsNearestMonday(y0 + 1);
    Civil.JanFirstStep(y0 - 1);
  }

  lemma StartGrows(y: int, y': int)
    requires y < y'
    ensures Start(y) < Start(y')
  {
    hide Start, Civil.JanFirst;
    StartIsNearestMonday(y);
    StartIsNearestMonday(y');
    Civil.JanFirstGrows(y, y');
  }

  // ----- Round trips -----

  lemma ToDaysFromStart(w: WeekDate)
    requires 1 <= w.weekday <= 7
    ensures ToDays(w) == Start(w.year) + 7 * (w.week - 1) + (w.weekday - 1)
    ensures IsoWeekday(ToDays(w)) == w.weekday
  {
    hide LastThursday, WeekdayOf, Civil.JanFirst;
    StartIsNearestMonday(w.year);
    WeekdayWeeks(Start(w.year), w.week - 1);
    WeekdayShift(Start(w.year) + 7 * (w.week - 1), w.weekday - 1);
  }

  lemma WeekParts(start: int, z: int)
    requires IsoWeekday(start) == MON && start <= z
    ensures z == start + 7 * ((z - start) / 7) + (IsoWeekday(z) - 1)
  {
    hide WeekdayOf;
    var n, k := (z - start) / 7, (z - start) % 7;
    WeekdayWeeks(start, n);
    WeekdayShift(start + 7 * n, k);
  }

  /** From days and back, over every day; the week never exceeds the year's count. */
  lemma FromDaysInverts(z: int)
    ensures Ok(FromDays(z)) && ToDays(FromDays(z)) == z
  {
    hide Start, ToDays, WeekdayOf, LastThursday, Civil.FromDays, Civil.JanFirst;
    var w := FromDays(z);
    YearFound(z);
    YearLength(w.year);
    StartIsNearestMonday(w.year);
    ToDaysFromStart(w);
    WeekParts(Start(w.year), z);
  }

  lemma ToDaysInverts(w: WeekDate)
    requires Ok(w)
    ensures FromDays(ToDays(w)) == w
  {
    hide ToDays, FromDays, IsoWeekday, LastThursday, Start, WeekCount;
    var z := ToDays(w);
    ToDaysFromStart(w);
    FoundYear(z);
    YearLength(w.year);
    var y := FromDays(z).year;
    if y < w.year {
      StartGrowsAtMost(y + 1, w.year);
    } else if w.year < y {
      StartGrowsAtMost(w.year + 1, y);
    }
    DivUnique(z - Start(w.year), 7, w.week - 1, w.weekday - 1);
  }

  /** What `from_days` returns, in terms of the year it finds. */
  lemma FoundYear(z: int)
    ensures var w := FromDays(z);
            Start(w.year) <= z < Start(w.year + 1)
            && w.week == (z - Start(w.year)) / 7 + 1 && w.weekday == IsoWeekday(z)
  {
    hide LastThursday, Start, IsoWeekday, Civil.FromDays;
    YearFound(z);
  }

  lemma StartGrowsAtMost(y: int, y': int)
    requires y <= y'
    ensures Start(y) <= Start(y')
  {
    if y < y' {
      StartGrows(y, y');
    }
  }

  /** The "last week" form names the same day as the numbered form. */
  lemma LastWeekAgrees(y: int, wd: nat)
    requires 1 <= wd <= 7
    ensures LastWeekToDays(y, wd) == ToDays(WeekDate(y, WeekCount(y), wd))
  {
    hide LastThursday, WeekCount, WeekdayOf, ToDays, Start, IsLeap, Civil.JanFirst;
    YearLength(y);
    StartIsNearestMonday(y + 1);
    ToDaysFromStart(WeekDate(y, WeekCount(y), wd));
  }

  // ----- The standard's definition -----

  /** The Thursday of the Monday-to-Sunday week of day `z`. */
  function ThursdayOf(z: int): int {
    z - (IsoWeekday(z) - 1) + 3
  }

  /** Year and week number are those of the week's Thursday in the civil calendar. */
  lemma FromDaysIsStandard(z: int)
    ensures var th := ThursdayOf(z);
            var w := FromDays(z);
            w.year == Civil.FromDays(th).year
            && w.week == (th - Civil.JanFirst(w.year)) / 7 + 1
  {
    hide Start, ToDays, IsoWeekday, IsLeap, LastThursday, FromDays, Civil.FromDays, Civil.JanFirst, Civil.IsLeap, Civil.DaysBefore;
    var w := FromDays(z);
    FromDaysInverts(z);
    ToDaysFromStart(w);
    YearLength(w.year);
    StartIsNearestMonday(w.year);
    StartIsNearestMonday(w.year + 1);
    var th := ThursdayOf(z);
    assert th == Start(w.year) + 7 * (w.week - 1) + 3;
    Civil.YearOf(th, w.year);
    DivUnique(th - Civil.JanFirst(w.year), 7, w.week - 1, Start(w.year) + 3 - Civil.JanFirst(w.year));
  }

  lemma ThursdayNear(y: int, d: int)
    requires Start(y) - 4 <= d <= Start(y) + 3
    ensures WeekdayOf(d) == THURSDAY <==> d == Start(y) - 4 || d == Start(y) + 3
  {
    hide Start, WeekdayOf, Minus, Civil.JanFirst;
    StartIsNearestMonday(y);
    FirstFrom(Start(y), THURSDAY);
    MinusIsModular(THURSDAY, MON);
    WeekdayWeeks(d, 1);
  }

  /** A year has 53 weeks exactly when it starts or ends on a Thursday. */
  lemma LongYear(y: int)
    ensures IsLeap(y) <==>
            WeekdayOf(Civil.JanFirst(y)) == THURSDAY || WeekdayOf(Civil.JanFirst(y + 1) - 1) == THURSDAY
  {
    hide Start, IsLeap, WeekdayOf, LastThursday, Civil.JanFirst, Civil.IsLeap, Civil.DaysBefore;
    YearLength(y);
    StartIsNearestMonday(y);
    StartIsNearestMonday(y + 1);
    Civil.JanFirstStep(y);
    ThursdayNear(y, Civil.JanFirst(y));
    ThursdayNear(y + 1, Civil.JanFirst(y + 1) - 1);
  }

  // ----- The 16-bit year -----

  /** The start of a week year as the code computes it: `date::year` keeps 16 bits. */
  function Start16(y: int): int {
    LastThursday(ToInt16(y - 1)) + IsoMinus(MON, THU)
  }

  /** `from_days` with its narrow year, and week numbers of eight bits. */
  function FromDays16(z: int): WeekDate {
    var y0 := Civil.FromDays16(z + 3).year;
    var y := if z < Start16(y0) then ToInt16(y0 - 1) else y0;
    WeekDate(y, ToUint32(TruncDiv(z - Start16(y), 7) + 1) % 256, IsoWeekday(z))
  }

  /** `operator sys_days` with the narrow year. */
  function ToDays16(w: WeekDate): int {
    LastThursday(ToInt16(w.year - 1)) + Minus(MON, THURSDAY) + 7 * (w.week - 1) + IsoMinus(w.weekday, MON)
  }

  /** The year whose start is computed for `y`. */
  function Computed(y: int): (y': int)
    ensures -32767 <= y' <= 32768
  {
    ToInt16(y - 1) + 1
  }

  lemma ComputedRight(y: int)
    ensures -32767 <= y <= 32768 ==> Computed(y) == y
    ensures Computed(-32768) == 32768
    ensures -32768 <= y <= 32767 && Computed(y) == -32767 ==> y == -32767
    ensures Start16(y) == Start(Computed(y))
  {
    hide LastThursday;
  }

  lemma ToDays16FromStart(w: WeekDate)
    requires 1 <= w.weekday <= 7
    ensures ToDays16(w) == Start(Computed(w.year)) + 7 * (w.week - 1) + (w.weekday - 1)
  {
    hide LastThursday;
  }

  lemma Starts(y: int)
    ensures Civil.JanFirst(y) - 3 <= Start(y) <= Civil.JanFirst(y) + 3
  {
    hide Start, Civil.JanFirst;
    StartIsNearestMonday(y);
  }

  /** The week counted from a start no more than a year back keeps its eight bits. */
  lemma WeekKept(start: int, z: int)
    requires start <= z < start + 400
    ensures ToUint32(TruncDiv(z - start, 7) + 1) % 256 == WeekNumber(start, z)
  {
  }

  /** From the first day of year -32767 to the last of year 32767, narrowing changes nothing. */
  lemma NarrowedNames(z: int)
    requires Start(-32767) <= z < Start(32768)
    ensures FromDays16(z) == FromDays(z)
  {
    hide Start, Start16, Computed, IsoWeekday, LastThursday, WeekNumber, Civil.JanFirst, Civil.FromDays, TruncDiv, ToUint32;
    var y0 := Civil.FromDays(z + 3).year;
    Civil.YearOf(z + 3, y0);
    Starts(-32767);
    Starts(32768);
    if y0 < -32767 {
      Civil.JanFirstGrows(y0 + 1, -32767);
    } else if y0 > 32768 {
      Civil.JanFirstGrows(32769, y0);
      Civil.JanFirstGrows(32768, 32769);
    }
    ComputedRight(y0);
    ComputedRight(-32768);
    ComputedRight(y0 - 1);
    YearFound(z);
    var y := FromDays(z).year;
    YearLength(y);
    WeekKept(Start(y), z);
  }

  /** In the year after that the day is right and only the year is misnamed, as -32768. */
  lemma NarrowedLast(z: int)
    requires Start(32768) <= z < Civil.JanFirst(32769) - 3
    ensures FromDays16(z).year == -32768 && ToDays16(FromDays16(z)) == z
  {
    hide Start, Start16, ToDays16, Computed, LastThursday, WeekdayOf, Civil.JanFirst, Civil.FromDays, Civil.IsLeap, TruncDiv, ToUint32;
    Starts(32768);
    Civil.YearOf(z + 3, 32768);
    Civil.JanFirstStep(32768);
    ComputedRight(-32768);
    WeekKept(Start(32768), z);
    StartIsNearestMonday(32768);
    ToDays16FromStart(FromDays16(z));
    WeekParts(Start(32768), z);
  }

  /** Whatever the week number, the day stays within 256 weeks of a start. */
  lemma ToDays16Near(z: int)
    ensures var w := FromDays16(z);
            Start(Computed(w.year)) - 7 <= ToDays16(w) <= Start(Computed(w.year)) + 1784
  {
    hide Start, Start16, ToDays16, Computed, WeekdayOf, LastThursday, TruncDiv, ToUint32, Civil.FromDays;
    ToDays16FromStart(FromDays16(z));
  }

  lemma LostBefore(z: int)
    requires z < Start(-32767)
    ensures ToDays16(FromDays16(z)) != z
  {
    hide Start, Start16, ToDays16, Computed, IsoWeekday, LastThursday, TruncDiv, ToUint32, Civil.JanFirst, Civil.FromDays;
    var w := FromDays16(z);
    ToDays16Near(z);
    ComputedRight(w.year);
    Starts(-32767);
    if Computed(w.year) > -32767 {
      Civil.JanFirstGrows(-32767, Computed(w.year));
      Starts(Computed(w.year));
    } else if z >= Start(-32767) - 7 {
      var y0 := Civil.FromDays(z + 3).year;
      Civil.YearOf(z + 3, y0);
      if y0 < -32768 {
        Civil.JanFirstGrows(y0 + 1, -32768);
        Civil.JanFirstGrows(-32768, -32767);
      } else if y0 > -32767 {
        Civil.JanFirstGrows(-32766, y0);
        Civil.JanFirstGrows(-32767, -32766);
      }
      ComputedRight(y0);
    }
  }

  lemma LostAfter(z: int)
    requires z >= Civil.JanFirst(32769) - 3
    ensures ToDays16(FromDays16(z)) != z
  {
    hide Start, Start16, ToDays16, Computed, IsoWeekday, LastThursday, TruncDiv, ToUint32, Civil.JanFirst, Civil.FromDays;
    var w := FromDays16(z);
    ToDays16Near(z);
    Starts(Computed(w.year));
    Civil.JanFirstGrows(Computed(w.year), 32768);
    Civil.JanFirstGrows(32768, 32773);
    if z < Civil.JanFirst(32773) - 3 {
      var y0 := Civil.FromDays(z + 3).year;
      Civil.YearOf(z + 3, y0);
      if y0 < 32769 {
        Civil.JanFirstGrows(y0 + 1, 32769);
      } else if y0 > 32772 {
        Civil.JanFirstGrows(32773, y0);
      }
      ComputedRight(y0 - 65536);
      Starts(y0 - 65536);
      Civil.JanFirstGrows(y0 - 65536, 32769);
    }
  }

  const MIN_DAY := -12687426
  const MAX_DAY := 11249100

  lemma DayLimits()
    ensures Start(-32767) == MIN_DAY && Civil.JanFirst(32769) - 3 == MAX_DAY + 1
  {
    hide Start, Civil.JanFirst;
    Civil.JanFirstStep(-32767);
    Civil.JanFirstStep(32769);
    StartIsNearestMonday(-32767);
  }

  /** The narrowed trip is undone on exactly these days. */
  lemma Narrowed(z: int)
    ensures ToDays16(FromDays16(z)) == z <==> MIN_DAY <= z <= MAX_DAY
  {
    hide Start, ToDays, FromDays, ToDays16, FromDays16, Civil.JanFirst, IsLeap;
    DayLimits();
    if z < Start(-32767) {
      LostBefore(z);
    } else if z >= Civil.JanFirst(32769) - 3 {
      LostAfter(z);
    } else if z >= Start(32768) {
      NarrowedLast(z);
    } else {
      NarrowedNames(z);
      FromDaysInverts(z);
      NarrowedSame(FromDays(z), z);
    }
  }

  lemma NarrowedSame(w: WeekDate, z: int)
    requires w == FromDays(z) && Start(-32767) <= z < Start(32768)
    ensures ToDays16(w) == ToDays(w) && -32767 <= w.year <= 32767
  {
    hide Start, ToDays, ToDays16, Computed, IsoWeekday, LastThursday, Civil.FromDays;
    FoundYear(z);
    if w.year < -32767 {
      StartGrowsAtMost(w.year + 1, -32767);
    } else if w.year > 32767 {
      StartGrowsAtMost(32768, w.year);
    }
    FromDaysInverts(z);
    ToDaysFromStart(w);
    ToDays16FromStart(w);
    ComputedRight(w.year);
  }

  /** And every ok week date of a year the code calls ok is restored. */
  lemma NarrowedInverts(w: WeekDate)
    requires Ok(w) && -32767 <= w.year <= 32767
    ensures FromDays16(ToDays16(w)) == w
  {
    hide Start, ToDays, FromDays, ToDays16, FromDays16, LastThursday, WeekCount;
    var z := ToDays(w);
    ToDaysInverts(w);
    FoundYear(z);
    StartGrowsAtMost(-32767, w.year);
    StartGrowsAtMost(w.year + 1, 32768);
    NarrowedNames(z);
    NarrowedSame(w, z);
  }
}
