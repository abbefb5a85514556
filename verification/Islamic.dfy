/**
 * The tabular Islamic calendar of islamic.h: thirty-year eras of eleven leap years,
 * months of thirty and twenty-nine days in turn.
 */
module Islamic {
  import opened MachineInt
  import Civil
  import Julian
  import Weekdays

  type Date = Civil.Date

  /** The years of an era that `year::is_leap` lists. */
  predicate LeapYearOfEra(yoe: int) {
    yoe == 1 || yoe == 4 || yoe == 6 || yoe == 9 || yoe == 12 || yoe == 15
    || yoe == 17 || yoe == 20 || yoe == 23 || yoe == 25 || yoe == 28
  }

  predicate IsLeap(year: int) {
    var y := year - 1;
    var era := TruncDiv(if y >= 0 then y else y - 29, 30);
    LeapYearOfEra(y - era * 30)
  }

  const MONTH_LENGTHS: seq<nat> := [30, 29, 30, 29, 30, 29, 30, 29, 30, 29, 30, 29]

  /** `year_month_day_last::day`. */
  function LastDay(y: int, m: nat): nat
    requires 1 <= m <= 12
  {
    if m != 12 || !IsLeap(y) then MONTH_LENGTHS[m - 1] else 30
  }

  predicate Ok(d: Date) {
    1 <= d.month <= 12 && 1 <= d.day <= LastDay(d.year, d.month)
  }

  function LeapTerm(yoe: int): int {
    (11 * (yoe + 1) + 3) / 30
  }

  function MonthTerm(m: int): int {
    29 * (m - 1) + m / 2
  }

  function ToDays(date: Date): int {
    var y := date.year - 1;
    var era := TruncDiv(if y >= 0 then y else y - 29, 30);
    var yoe := y - era * 30;
    var doy := MonthTerm(date.month) + date.day - 1;
    var doe := yoe * 354 + LeapTerm(yoe) + doy;
    era * 10631 + doe - 492148
  }

  function FromDays(days: int): Date {
    var z := days + 492148;
    var era := TruncDiv(if z >= 0 then z else z - 10630, 10631);
    var doe := z - era * 10631;
    EraBounds(z, era, doe);
    var yoe := YearOfEraDay(doe);
    var y := yoe + era * 30 + 1;
    var doy := doe - (yoe * 354 + LeapTerm(yoe));
    YearOfEra(doe);
    var m := (11 * doy + 330) / 325;
    var d := doy - MonthTerm(m) + 1;
    MonthOfYear(doy, m, d);
    Civil.Date(y, m, d)
  }

  function YearOfEraDay(doe: int): int {
    (30 * doe + 10646) / 10631 - 1
  }

  // ----- Eras -----

  /** Leap years of an era before year `yoe`, counted by the list. */
  function LeapsBefore(yoe: nat): nat {
    if yoe == 0 then 0 else LeapsBefore(yoe - 1) + (if LeapYearOfEra(yoe - 1) then 1 else 0)
  }

  /** The linear term steps exactly at the listed years. */
  lemma LeapTermStep(yoe: int)
    requires 0 <= yoe < 30
    ensures LeapTerm(yoe + 1) == LeapTerm(yoe) + (if LeapYearOfEra(yoe) then 1 else 0)
    ensures LeapYearOfEra(yoe) <==> (11 * (yoe + 1) + 3) % 30 >= 19
  {
  }

  lemma {:induction false} LeapTermCounts(yoe: nat)
    requires yoe <= 30
    ensures LeapTerm(yoe) == LeapsBefore(yoe)
  {
    hide LeapTerm, LeapYearOfEra;
    if yoe > 0 {
      LeapTermCounts(yoe - 1);
      LeapTermStep(yoe - 1);
    } else {
      LeapTermZero();
    }
  }

  lemma LeapTermZero()
    ensures LeapTerm(0) == 0
  {
  }

  /** So every era has eleven leap years and 10631 days. */
  lemma EraLength()
    ensures LeapsBefore(30) == 11 && 30 * 354 + LeapsBefore(30) == 10631
  {
    LeapTermCounts(30);
  }

  lemma EraBounds(z: int, era: int, doe: int)
    requires era == TruncDiv(if z >= 0 then z else z - 10630, 10631) && doe == z - era * 10631
    ensures era == z / 10631 && 0 <= doe <= 10630
  {
    EraIsFloor(z, 10631);
  }

  /** The single division of `from_days` finds the year of the era. */
  lemma YearOfEra(doe: int)
    requires 0 <= doe <= 10630
    ensures var yoe := YearOfEraDay(doe);
            var doy := doe - (yoe * 354 + LeapTerm(yoe));
            0 <= yoe <= 29 && 0 <= doy <= 354 && (doy == 354 ==> LeapYearOfEra(yoe))
  {
    hide LeapYearOfEra;
    var yoe := YearOfEraDay(doe);
    var s := (30 * doe + 10646) % 10631;
    var r := (11 * (yoe + 1) + 3) % 30;
    assert 30 * doe + 10646 == 10631 * (yoe + 1) + s;
    assert 30 * LeapTerm(yoe) + r == 11 * (yoe + 1) + 3;
    var doy := doe - (yoe * 354 + LeapTerm(yoe));
    assert 30 * doy == s - 29 + r;
    LeapTermStep(yoe);
  }

  predicate IsDayOfYear(doy: int, m: int, d: int) {
    1 <= m <= 12 && 1 <= d && doy == MonthTerm(m) + d - 1
    && (d <= MONTH_LENGTHS[m - 1] || (m == 12 && d == 30 && doy == 354))
  }

  lemma MonthOfYear(doy: int, m: int, d: int)
    requires 0 <= doy <= 354 && m == (11 * doy + 330) / 325 && d == doy - MonthTerm(m) + 1
    ensures IsDayOfYear(doy, m, d)
  {
  }

  /** Days before year `y`, over all years at once. */
  function DaysBefore(y: int): int {
    354 * (y - 1) + (11 * y + 3) / 30
  }

  lemma YearForm(y: int)
    ensures var era, yoe := (y - 1) / 30, (y - 1) % 30;
            DaysBefore(y) == era * 10631 + yoe * 354 + LeapTerm(yoe)
            && (IsLeap(y) <==> LeapYearOfEra(yoe))
  {
    EraIsFloor(y - 1, 30);
    var era, yoe := (y - 1) / 30, (y - 1) % 30;
    DivUnique(11 * y + 3, 30, 11 * era + LeapTerm(yoe), (11 * (yoe + 1) + 3) % 30);
  }

  lemma ToDaysClosedForm(d: Date)
    ensures ToDays(d) == DaysBefore(d.year) + MonthTerm(d.month) + d.day - 1 - 492148
  {
    hide DaysBefore, MonthTerm, LeapTerm;
    EraIsFloor(d.year - 1, 30);
    YearForm(d.year);
  }

  lemma YearStep(y: int)
    ensures DaysBefore(y + 1) == DaysBefore(y) + (if IsLeap(y) then 355 else 354)
  {
    hide LeapTerm, LeapYearOfEra, IsLeap;
    YearForm(y);
    var r := (11 * y + 3) % 30;
    LeapRule(y);
    if r >= 19 {
      DivUnique(11 * y + 14, 30, (11 * y + 3) / 30 + 1, r - 19);
    } else {
      DivUnique(11 * y + 14, 30, (11 * y + 3) / 30, r + 11);
    }
  }

  /** The list as a congruence on the year itself. */
  lemma LeapRule(y: int)
    ensures IsLeap(y) <==> (11 * y + 3) % 30 >= 19
  {
    hide LeapYearOfEra, IsLeap;
    YearForm(y);
    var era, yoe := (y - 1) / 30, (y - 1) % 30;
    LeapTermStep(yoe);
    DivUnique(11 * y + 3, 30, 11 * era + (11 * (yoe + 1) + 3) / 30, (11 * (yoe + 1) + 3) % 30);
  }

  // ----- Agreement with the calendar -----

  function NextDay(d: Date): Date
    requires 1 <= d.month <= 12
  {
    if d.day < LastDay(d.year, d.month) then d.(day := d.day + 1)
    else if d.month < 12 then Civil.Date(d.year, d.month + 1, 1)
    else Civil.Date(d.year + 1, 1, 1)
  }

  lemma NextDayCounts(d: Date)
    requires Ok(d)
    ensures Ok(NextDay(d)) && ToDays(NextDay(d)) == ToDays(d) + 1
  {
    hide ToDays, DaysBefore, IsLeap;
    ToDaysClosedForm(d);
    ToDaysClosedForm(NextDay(d));
    YearStep(d.year);
  }

  lemma FromDaysParts(z: int) returns (y: int, doy: int)
    ensures 0 <= doy <= 354 && DaysBefore(y) + doy == z + 492148
    ensures doy == 354 ==> IsLeap(y)
    ensures FromDays(z).year == y && IsDayOfYear(doy, FromDays(z).month, FromDays(z).day)
  {
    hide DaysBefore, LeapTerm, LeapYearOfEra, IsLeap, YearOfEraDay, MonthTerm, IsDayOfYear;
    EraIsFloor(z + 492148, 10631);
    var era, doe := (z + 492148) / 10631, (z + 492148) % 10631;
    var yoe := YearOfEraDay(doe);
    YearOfEra(doe);
    y := yoe + era * 30 + 1;
    doy := doe - (yoe * 354 + LeapTerm(yoe));
    DivUnique(y - 1, 30, era, yoe);
    YearForm(y);
    MonthOfYear(doy, FromDays(z).month, FromDays(z).day);
  }

  lemma FromDaysInverts(z: int)
    ensures Ok(FromDays(z)) && ToDays(FromDays(z)) == z
  {
    hide ToDays, FromDays, DaysBefore, MonthTerm, IsLeap;
    var y, doy := FromDaysParts(z);
    ToDaysClosedForm(FromDays(z));
  }

  // ----- Order -----

  lemma {:induction false} DaysBeforeGrows(y: int, y': int)
    requires y <= y'
    ensures DaysBefore(y) <= DaysBefore(y')
    decreases y' - y
  {
    hide DaysBefore, IsLeap;
    if y < y' {
      DaysBeforeGrows(y, y' - 1);
      YearStep(y' - 1);
    }
  }

  lemma BeforeCounts(a: Date, b: Date)
    requires Ok(a) && Ok(b) && Civil.Before(a, b)
    ensures ToDays(a) < ToDays(b)
  {
    hide ToDays, DaysBefore, IsLeap;
    ToDaysClosedForm(a);
    ToDaysClosedForm(b);
    if a.year < b.year {
      YearStep(a.year);
      DaysBeforeGrows(a.year + 1, b.year);
    }
  }

  lemma OrderAgrees(a: Date, b: Date)
    requires Ok(a) && Ok(b)
    ensures Civil.Before(a, b) <==> ToDays(a) < ToDays(b)
  {
    hide ToDays, Ok;
    if Civil.Before(a, b) {
      BeforeCounts(a, b);
    } else if a != b {
      BeforeCounts(b, a);
    }
  }

  lemma ToDaysInverts(d: Date)
    requires Ok(d)
    ensures FromDays(ToDays(d)) == d
  {
    hide ToDays, FromDays, Ok;
    FromDaysInverts(ToDays(d));
    OrderAgrees(d, FromDays(ToDays(d)));
    OrderAgrees(FromDays(ToDays(d)), d);
  }

  // ----- The 16-bit year -----

  /** `from_days` as the code returns it: `islamic::year` keeps 16 bits. */
  function FromDays16(z: int): Date {
    var d := FromDays(z);
    d.(year := ToInt16(d.year))
  }

  const MIN_DAY := -12104389
  const MAX_DAY := 11119384

  lemma DayLimits()
    ensures DaysBefore(-32768) - 492148 == MIN_DAY && DaysBefore(32768) - 492148 == MAX_DAY + 1
  {
  }

  /** A date of thirty-day months lies no later than the first day of the next year. */
  lemma NearYear(d: Date)
    requires 1 <= d.month <= 12 && 1 <= d.day <= 30 && (d.day <= MONTH_LENGTHS[d.month - 1] || d.month == 12)
    ensures DaysBefore(d.year) - 492148 <= ToDays(d) <= DaysBefore(d.year + 1) - 492148
    ensures Ok(d) ==> ToDays(d) < DaysBefore(d.year + 1) - 492148
  {
    hide ToDays, DaysBefore, IsLeap;
    ToDaysClosedForm(d);
    YearStep(d.year);
  }

  /** The narrowed conversion is undone by `to_days` on exactly the days of the 65536 years. */
  lemma Narrowed(z: int)
    ensures ToDays(FromDays16(z)) == z <==> MIN_DAY <= z <= MAX_DAY
  {
    hide ToDays, FromDays, DaysBefore, IsLeap;
    var y, y' := FromDays(z).year, FromDays16(z).year;
    FromDaysInverts(z);
    NearYear(FromDays(z));
    NearYear(FromDays16(z));
    DayLimits();
    if y < -32768 {
      DaysBeforeGrows(y + 1, -32768);
      DaysBeforeGrows(-32768, y');
    } else if y > 32767 {
      Wrapped(y);
      YearStep(y' + 1);
      DaysBeforeGrows(32768, y);
      DaysBeforeGrows(y' + 2, y);
    } else {
      DaysBeforeGrows(-32768, y);
      DaysBeforeGrows(y + 1, 32768);
    }
  }

  lemma Wrapped(y: int)
    requires y > 32767
    ensures ToInt16(y) + 2 <= y
  {
  }

  /** The three calendars share one epoch: 1 Muharram 1 is Friday 16 July 622 (Julian). */
  lemma EpochsMeet()
    ensures ToDays(Civil.Date(1, 1, 1)) == Julian.ToDays(Civil.Date(622, 7, 16)) == Civil.ToDays(Civil.Date(622, 7, 19))
    ensures Weekdays.WeekdayOf(ToDays(Civil.Date(1, 1, 1))) == 5
  {
    hide ToDays, Julian.ToDays, Civil.ToDays;
    ToDaysClosedForm(Civil.Date(1, 1, 1));
    Julian.ToDaysClosedForm(Civil.Date(622, 7, 16));
    Civil.ToDaysClosedForm(Civil.Date(622, 7, 19));
  }
}
