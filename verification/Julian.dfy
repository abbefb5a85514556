/**
 * The proleptic Julian calendar of julian.h. It shares its months with date.h, so the
 * month half of the conversion is the one proved in `Civil`.
 */
module Julian {
  import opened MachineInt
  import Civil

  type Date = Civil.Date

  predicate IsLeap(y: int) {
    y % 4 == 0
  }

  /** `year_month_day_last::day`. */
  function LastDay(y: int, m: nat): nat
    requires 1 <= m <= 12
  {
    if m != 2 || !IsLeap(y) then Civil.MONTH_LENGTHS[m - 1] else 29
  }

  predicate Ok(d: Date) {
    1 <= d.month <= 12 && 1 <= d.day <= LastDay(d.year, d.month)
  }

  function ToDays(date: Date): int {
    var y := date.year - (if date.month <= 2 then 1 else 0);
    var era := TruncDiv(if y >= 0 then y else y - 3, 4);
    var yoe := y - era * 4;
    var doy := (153 * (if date.month > 2 then date.month - 3 else date.month + 9) + 2) / 5 + date.day - 1;
    var doe := yoe * 365 + doy;
    era * 1461 + doe - 719470
  }

  function FromDays(days: int): Date {
    var z := days + 719470;
    var era := TruncDiv(if z >= 0 then z else z - 1460, 1461);
    var doe := z - era * 1461;
    EraBounds(z, era, doe);
    DateOfEraDay(era, doe)
  }

  /** The rest of `from_days`: year, month and day of day `doe` of an era. */
  function DateOfEraDay(era: int, doe: int): Date
    requires 0 <= doe <= 1460
  {
    var yoe := (doe - doe / 1460) / 365;
    YearOfEra(doe, yoe);
    var y := yoe + era * 4;
    var doy := doe - 365 * yoe;
    var mp := (5 * doy + 2) / 153;
    var d := doy - (153 * mp + 2) / 5 + 1;
    var m := if mp < 10 then mp + 3 else mp - 9;
    Civil.Date(y + (if m <= 2 then 1 else 0), m, d)
  }

  // ----- Eras -----

  lemma EraBounds(z: int, era: int, doe: int)
    requires era == TruncDiv(if z >= 0 then z else z - 1460, 1461) && doe == z - era * 1461
    ensures era == z / 1461 && 0 <= doe <= 1460
  {
    EraIsFloor(z, 1461);
  }

  lemma YearOfEra(doe: int, yoe: int)
    requires 0 <= doe <= 1460 && yoe == (doe - doe / 1460) / 365
    ensures 0 <= yoe <= 3 && 0 <= doe - 365 * yoe <= 365
    ensures doe - 365 * yoe == 365 ==> yoe == 3
  {
  }

  /** Days before 1 March of year `y`, counted from 1 March of year 0. */
  function DaysBefore(y: int): int {
    365 * y + y / 4
  }

  lemma ToDaysClosedForm(d: Date)
    ensures ToDays(d) == DaysBefore(d.year - (if d.month <= 2 then 1 else 0))
                         + Civil.MonthStart(d.month) + d.day - 1 - 719470
  {
    EraIsFloor(d.year - (if d.month <= 2 then 1 else 0), 4);
  }

  // ----- Agreement with the calendar -----

  function NextDay(d: Date): Date
    requires 1 <= d.month <= 12
  {
    if d.day < LastDay(d.year, d.month) then d.(day := d.day + 1)
    else if d.month < 12 then Civil.Date(d.year, d.month + 1, 1)
    else Civil.Date(d.year + 1, 1, 1)
  }

  lemma NextDayCounts(d: Date)
    requires Ok(d)
    ensures Ok(NextDay(d)) && ToDays(NextDay(d)) == ToDays(d) + 1
  {
    hide ToDays, DaysBefore, Civil.MonthStart;
    ToDaysClosedForm(d);
    ToDaysClosedForm(NextDay(d));
    Civil.MonthStep(d.month);
    YearStep(d.year);
  }

  lemma YearStep(y: int)
    ensures DaysBefore(y) == DaysBefore(y - 1) + (if IsLeap(y) then 366 else 365)
  {
    FloorStep(y, 4);
  }

  /** What the quantities inside `from_days` satisfy. */
  lemma FromDaysParts(z: int) returns (y: int, doy: int)
    ensures 0 <= doy <= 365 && DaysBefore(y) + doy == z + 719470
    ensures doy == 365 ==> IsLeap(y + 1)
    ensures var d := FromDays(z);
            d.year == y + (if d.month <= 2 then 1 else 0)
            && Civil.IsDayOfMarchYear(doy, d.month, d.day)
  {
    hide Civil.IsDayOfMarchYear, DaysBefore, IsLeap, DateOfEraDay;
    EraIsFloor(z + 719470, 1461);
    y, doy := EraParts((z + 719470) / 1461, (z + 719470) % 1461);
  }

  lemma EraParts(era: int, doe: int) returns (y: int, doy: int)
    requires 0 <= doe <= 1460
    ensures 0 <= doy <= 365 && DaysBefore(y) + doy == 1461 * era + doe
    ensures doy == 365 ==> IsLeap(y + 1)
    ensures var d := DateOfEraDay(era, doe);
            d.year == y + (if d.month <= 2 then 1 else 0)
            && Civil.IsDayOfMarchYear(doy, d.month, d.day)
  {
    hide Civil.IsDayOfMarchYear, Civil.MonthStart, DaysBefore, IsLeap;
    var yoe := (doe - doe / 1460) / 365;
    YearOfEra(doe, yoe);
    y := yoe + era * 4;
    doy := doe - 365 * yoe;
    EraForm(era, yoe);
    var d := DateOfEraDay(era, doe);
    Civil.MonthOfYear(doy, (5 * doy + 2) / 153, d.month, d.day);
  }

  lemma EraForm(era: int, yoe: int)
    requires 0 <= yoe <= 3
    ensures DaysBefore(yoe + era * 4) == 1461 * era + 365 * yoe
    ensures yoe == 3 ==> IsLeap(yoe + era * 4 + 1)
  {
    DivUnique(yoe + era * 4, 4, era, yoe);
    if yoe == 3 {
      DivUnique(yoe + era * 4 + 1, 4, era + 1, 0);
    }
  }

  lemma FromDaysInverts(z: int)
    ensures Ok(FromDays(z)) && ToDays(FromDays(z)) == z
  {
    hide ToDays, FromDays, DaysBefore, Civil.MonthStart, IsLeap;
    var y, doy := FromDaysParts(z);
    ToDaysClosedForm(FromDays(z));
  }

  // ----- Order -----

  function JanFirst(y: int): int {
    ToDays(Civil.Date(y, 1, 1))
  }

  lemma WithinYear(d: Date)
    requires Ok(d)
    ensures JanFirst(d.year) <= ToDays(d) < JanFirst(d.year + 1)
    ensures JanFirst(d.year + 1) - JanFirst(d.year) == if IsLeap(d.year) then 366 else 365
  {
    hide ToDays, DaysBefore, IsLeap;
    ToDaysClosedForm(d);
    ToDaysClosedForm(Civil.Date(d.year, 1, 1));
    ToDaysClosedForm(Civil.Date(d.year + 1, 1, 1));
    YearStep(d.year);
  }

  lemma {:induction false} JanFirstGrows(y: int, y': int)
    requires y <= y'
    ensures JanFirst(y) <= JanFirst(y')
    decreases y' - y
  {
    hide JanFirst, IsLeap;
    if y < y' {
      JanFirstGrows(y, y' - 1);
      WithinYear(Civil.Date(y' - 1, 1, 1));
    }
  }

  lemma MonthOrder(a: Date, b: Date)
    requires Ok(a) && Ok(b) && a.year == b.year && a.month < b.month
    ensures ToDays(a) < ToDays(b)
  {
    hide ToDays, DaysBefore, IsLeap;
    ToDaysClosedForm(a);
    ToDaysClosedForm(b);
    YearStep(a.year);
  }

  lemma BeforeCounts(a: Date, b: Date)
    requires Ok(a) && Ok(b) && Civil.Before(a, b)
    ensures ToDays(a) < ToDays(b)
  {
    hide ToDays, JanFirst, DaysBefore, IsLeap, LastDay, Civil.MonthStart;
    if a.year < b.year {
      WithinYear(a);
      WithinYear(b);
      JanFirstGrows(a.year + 1, b.year);
    } else if a.month < b.month {
      MonthOrder(a, b);
    } else {
      ToDaysClosedForm(a);
      ToDaysClosedForm(b);
    }
  }

  lemma OrderAgrees(a: Date, b: Date)
    requires Ok(a) && Ok(b)
    ensures Civil.Before(a, b) <==> ToDays(a) < ToDays(b)
  {
    hide ToDays, Ok;
    if Civil.Before(a, b) {
      BeforeCounts(a, b);
    } else if a != b {
      BeforeCounts(b, a);
    }
  }

  lemma ToDaysInverts(d: Date)
    requires Ok(d)
    ensures FromDays(ToDays(d)) == d
  {
    hide ToDays, FromDays, Ok;
    FromDaysInverts(ToDays(d));
    OrderAgrees(d, FromDays(ToDays(d)));
    OrderAgrees(FromDays(ToDays(d)), d);
  }

  // ----- The 16-bit year -----

  /** `from_days` as the code returns it: `julian::year` keeps 16 bits. */
  function FromDays16(z: int): Date {
    var d := FromDays(z);
    d.(year := ToInt16(d.year))
  }

  const MIN_DAY := -12688042
  const MAX_DAY := 11248981

  lemma DayLimits()
    ensures JanFirst(-32768) == MIN_DAY && JanFirst(32768) == MAX_DAY + 1
  {
    ToDaysClosedForm(Civil.Date(-32768, 1, 1));
    ToDaysClosedForm(Civil.Date(32768, 1, 1));
  }

  /** A day of the year, in any year: at most 29 February spills over, into March. */
  lemma NearYear(d: Date)
    requires 1 <= d.month <= 12 && 1 <= d.day <= if d.month == 2 then 29 else Civil.MONTH_LENGTHS[d.month - 1]
    ensures JanFirst(d.year) <= ToDays(d) < JanFirst(d.year + 1)
  {
    hide ToDays, DaysBefore, IsLeap;
    ToDaysClosedForm(d);
    ToDaysClosedForm(Civil.Date(d.year, 1, 1));
    ToDaysClosedForm(Civil.Date(d.year + 1, 1, 1));
    YearStep(d.year);
  }

  /** The narrowed conversion is undone by `to_days` on exactly the days of the 65536 years. */
  lemma Narrowed(z: int)
    ensures ToDays(FromDays16(z)) == z <==> MIN_DAY <= z <= MAX_DAY
  {
    hide ToDays, FromDays, JanFirst, IsLeap;
    var y, y' := FromDays(z).year, FromDays16(z).year;
    FromDaysInverts(z);
    NearYear(FromDays(z));
    NearYear(FromDays16(z));
    DayLimits();
    if y < -32768 {
      JanFirstGrows(y + 1, -32768);
      JanFirstGrows(-32768, y');
    } else if y > 32767 {
      JanFirstGrows(32768, y);
      JanFirstGrows(y' + 1, 32768);
    } else {
      JanFirstGrows(-32768, y);
      JanFirstGrows(y + 1, 32768);
    }
  }
}
