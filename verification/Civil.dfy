/**
 * The proleptic Gregorian calendar of date.h: `year::is_leap`, the month-length
 * table, `year_month_day::to_days` and `year_month_day::from_days`.
 *
 * The reference is the calendar itself: `NextDay` steps one day at a time by the
 * leap rule and the table, and knows nothing about eras or division chains.
 */
module Civil {
  import opened MachineInt

  datatype Date = Date(year: int, month: nat, day: nat)

  /** The leap rule; `LeapRuleAsCoded` has the C++ remainders of `year::is_leap`. */
  predicate IsLeap(y: int) {
    y % 4 == 0 && (y % 100 != 0 || y % 400 == 0)
  }

  lemma LeapRuleAsCoded(y: int)
    ensures IsLeap(y) <==> TruncMod(y, 4) == 0 && (TruncMod(y, 100) != 0 || TruncMod(y, 400) == 0)
  {
    hide TruncMod;
    TruncModZero(y, 4);
    TruncModZero(y, 100);
    TruncModZero(y, 400);
  }

  const MONTH_LENGTHS: seq<nat> := [31, 28, 31, 30, 31, 30, 31, 31, 30, 31, 30, 31]

  /** `year_month_day_last::day`; the code answers 29 for a month that is not ok. */
  function LastDay(y: int, m: nat): nat {
    if (m != 2 || !IsLeap(y)) && 1 <= m <= 12 then MONTH_LENGTHS[m - 1] else 29
  }

  /** `year_month_day::ok` without the range of the 16-bit year; see `FromDays16`. */
  predicate Ok(d: Date) {
    1 <= d.month <= 12 && 1 <= d.day <= LastDay(d.year, d.month)
  }

  function ToDays(date: Date): int {
    var y := date.year - (if date.month <= 2 then 1 else 0);
    var era := TruncDiv(if y >= 0 then y else y - 399, 400);
    var yoe := y - era * 400;
    var doy := (153 * (if date.month > 2 then date.month - 3 else date.month + 9) + 2) / 5 + date.day - 1;
    var doe := DaysBeforeYearOfEra(yoe) + doy;
    era * 146097 + doe - 719468
  }

  /** `from_days` before its year is narrowed to the 16 bits of `date::year`. */
  function FromDays(days: int): Date {
    var z := days + 719468;
    var era := TruncDiv(if z >= 0 then z else z - 146096, 146097);
    var doe := z - era * 146097;
    EraBounds(z, era, doe);
    DateOfEraDay(era, doe)
  }

  /** The rest of `from_days`: year, month and day of day `doe` of an era. */
  function DateOfEraDay(era: int, doe: int): Date
    requires 0 <= doe <= 146096
  {
    var yoe := YearOfEraDay(doe);
    YearOfEra(doe);
    var y := yoe + era * 400;
    var doy := doe - DaysBeforeYearOfEra(yoe);
    var mp := (5 * doy + 2) / 153;
    var d := doy - (153 * mp + 2) / 5 + 1;
    var m := if mp < 10 then mp + 3 else mp - 9;
    Date(y + (if m <= 2 then 1 else 0), m, d)
  }

  function YearOfEraDay(doe: int): int {
    (doe - doe / 1460 + doe / 36524 - doe / 146096) / 365
  }

  function DaysBeforeYearOfEra(yoe: int): int {
    365 * yoe + yoe / 4 - yoe / 100
  }

  // ----- The reference calendar -----

  function NextDay(d: Date): Date {
    if d.day < LastDay(d.year, d.month) then d.(day := d.day + 1)
    else if d.month < 12 then Date(d.year, d.month + 1, 1)
    else Date(d.year + 1, 1, 1)
  }

  /** The field-by-field order of date.h's `operator<`. */
  predicate Before(a: Date, b: Date) {
    a.year < b.year
    || (a.year == b.year && (a.month < b.month || (a.month == b.month && a.day < b.day)))
  }

  function JanFirst(y: int): int {
    ToDays(Date(y, 1, 1))
  }

  // ----- The closed form behind the era arithmetic -----

  /** Days before 1 March of year `y`, counted from 1 March of year 0. */
  function DaysBefore(y: int): int {
    365 * y + y / 4 - y / 100 + y / 400
  }

  lemma EraBounds(z: int, era: int, doe: int)
    requires era == TruncDiv(if z >= 0 then z else z - 146096, 146097)
    requires doe == z - era * 146097
    ensures era == z / 146097 && 0 <= doe <= 146096
  {
    EraIsFloor(z, 146097);
  }

  /** Peels centuries `a`, four-year cycles `b` and years `c` off a day of an era. */
  lemma PeelEra(doe: int) returns (a: int, b: int, c: int, doy: int)
    requires 0 <= doe <= 146096
    ensures 0 <= a <= 3 && 0 <= b <= 24 && 0 <= c <= 3 && 0 <= doy <= 365
    ensures doe == 36524 * a + 1461 * b + 365 * c + doy
    ensures doy == 365 ==> c == 3 && (b == 24 ==> a == 3)
  {
    a := Min(doe / 36524, 3);
    var r := doe - 36524 * a;
    b := r / 1461;
    var r' := r - 1461 * b;
    c := Min(r' / 365, 3);
    doy := r' - 365 * c;
  }

  /** The chain subtracts one leap day per four years but one per century too many; `e` is its slack. */
  lemma ChainNumerator(doe: int, a: int, b: int, c: int, doy: int) returns (e: int)
    requires 0 <= doe <= 146096
    requires 0 <= a <= 3 && 0 <= b <= 24 && 0 <= c <= 3 && 0 <= doy <= 365
    requires doe == 36524 * a + 1461 * b + 365 * c + doy
    requires doy == 365 ==> c == 3 && (b == 24 ==> a == 3)
    ensures doe - doe / 1460 + doe / 36524 - doe / 146096 == 365 * (100 * a + 4 * b + c) + doy - e
    ensures 0 <= doy - e < 365
  {
    var last := if doe == 146096 then 1 else 0;
    e := if 24 * a + b + 365 * c + doy >= 1460 then 1 else 0;
    assert doe / 1460 == 25 * a + b + e by {
      DivUnique(doe, 1460, 25 * a + b + e, 24 * a + b + 365 * c + doy - 1460 * e);
    }
    assert doe / 36524 == a + last by {
      DivUnique(doe, 36524, a + last, doe - 36524 * (a + last));
    }
    assert doe / 146096 == last by {
      DivUnique(doe, 146096, last, doe - 146096 * last);
    }
  }

  /** The division chain of `from_days` finds the year of the era, leap day included. */
  lemma YearOfEra(doe: int)
    requires 0 <= doe <= 146096
    ensures var yoe := YearOfEraDay(doe);
            0 <= yoe <= 399
            && 0 <= doe - DaysBeforeYearOfEra(yoe) <= 365
            && (doe - DaysBeforeYearOfEra(yoe) == 365 ==> LeapAfter(yoe))
  {
    hide LeapAfter, DaysBeforeYearOfEra;
    var a, b, c, doy := PeelEra(doe);
    var e := ChainNumerator(doe, a, b, c, doy);
    DivUnique(doe - doe / 1460 + doe / 36524 - doe / 146096, 365, 100 * a + 4 * b + c, doy - e);
    YearParts(a, b, c);
  }

  /** The leap rule for the February that ends year `yoe` of an era. */
  predicate LeapAfter(yoe: int) {
    (yoe + 1) % 4 == 0 && ((yoe + 1) % 100 == 0 ==> yoe == 399)
  }

  lemma YearParts(a: int, b: int, c: int)
    requires 0 <= a <= 3 && 0 <= b <= 24 && 0 <= c <= 3
    ensures DaysBeforeYearOfEra(100 * a + 4 * b + c) == 36524 * a + 1461 * b + 365 * c
    ensures c == 3 && (b == 24 ==> a == 3) ==> LeapAfter(100 * a + 4 * b + c)
  {
    var n := 100 * a + 4 * b + c;
    DivUnique(n, 4, 25 * a + b, c);
    DivUnique(n, 100, a, 4 * b + c);
    if c == 3 {
      DivUnique(n + 1, 4, 25 * a + b + 1, 0);
      if b < 24 {
        DivUnique(n + 1, 100, a, 4 * b + 4);
      }
    }
  }

  /** Day number of the first of month `m` in the year that starts on 1 March. */
  function MonthStart(m: nat): int {
    (153 * (if m > 2 then m - 3 else m + 9) + 2) / 5
  }

  lemma DaysBeforeEra(era: int, yoe: int)
    requires 0 <= yoe <= 399
    ensures DaysBefore(yoe + era * 400) == era * 146097 + DaysBeforeYearOfEra(yoe)
  {
    DivUnique(yoe + era * 400, 4, yoe / 4 + era * 100, yoe % 4);
    DivUnique(yoe + era * 400, 100, yoe / 100 + era * 4, yoe % 100);
    DivUnique(yoe + era * 400, 400, era, yoe);
  }

  lemma ToDaysClosedForm(d: Date)
    ensures ToDays(d) == DaysBefore(d.year - (if d.month <= 2 then 1 else 0))
                         + MonthStart(d.month) + d.day - 1 - 719468
  {
    hide DaysBefore, DaysBeforeYearOfEra;
    var y := d.year - (if d.month <= 2 then 1 else 0);
    EraIsFloor(y, 400);
    DaysBeforeEra(y / 400, y % 400);
  }

  /** Month and day name day `doy` of a year that starts on 1 March. */
  predicate IsDayOfMarchYear(doy: int, m: int, d: int) {
    1 <= m <= 12 && 1 <= d && doy == MonthStart(m) + d - 1
    && if m == 2 then d <= 28 || (d == 29 && doy == 365) else d <= MONTH_LENGTHS[m - 1]
  }

  /** The month chain of `from_days` reads the month lengths off `(153 * mp + 2) / 5`. */
  lemma MonthOfYear(doy: int, mp: int, m: int, d: int)
    requires 0 <= doy <= 365 && mp == (5 * doy + 2) / 153
    requires d == doy - (153 * mp + 2) / 5 + 1 && m == if mp < 10 then mp + 3 else mp - 9
    ensures IsDayOfMarchYear(doy, m, d)
  {
  }

  // ----- Agreement with the reference calendar -----

  lemma YearStep(y: int)
    ensures DaysBefore(y) == DaysBefore(y - 1) + (if IsLeap(y) then 366 else 365)
  {
    FloorStep(y, 4);
    FloorStep(y, 100);
    FloorStep(y, 400);
  }

  lemma MonthStep(m: nat)
    requires 1 <= m <= 12
    ensures m != 2 ==> MonthStart(m) + MONTH_LENGTHS[m - 1] == MonthStart(if m == 12 then 1 else m + 1)
    ensures MonthStart(2) == 337 && MonthStart(3) == 0
  {
  }

  lemma NextDayCounts(d: Date)
    requires Ok(d)
    ensures Ok(NextDay(d)) && ToDays(NextDay(d)) == ToDays(d) + 1
  {
    hide ToDays, DaysBefore, MonthStart;
    ToDaysClosedForm(d);
    ToDaysClosedForm(NextDay(d));
    MonthStep(d.month);
    YearStep(d.year);
  }

  /** What the quantities inside `from_days` satisfy. */
  lemma FromDaysParts(z: int) returns (y: int, doy: int)
    ensures 0 <= doy <= 365 && DaysBefore(y) + doy == z + 719468
    ensures doy == 365 ==> IsLeap(y + 1)
    ensures var d := FromDays(z);
            d.year == y + (if d.month <= 2 then 1 else 0)
            && IsDayOfMarchYear(doy, d.month, d.day)
  {
    hide DaysBefore, MonthStart, IsDayOfMarchYear, IsLeap, YearOfEraDay, DaysBeforeYearOfEra, LeapAfter;
    EraIsFloor(z + 719468, 146097);
    var era, doe := (z + 719468) / 146097, (z + 719468) % 146097;
    var yoe := YearOfEraDay(doe);
    YearOfEra(doe);
    y := yoe + era * 400;
    doy := doe - DaysBeforeYearOfEra(yoe);
    DaysBeforeEra(era, yoe);
    MonthOfYear(doy, (5 * doy + 2) / 153, FromDays(z).month, FromDays(z).day);
    LeapOfEra(era, yoe);
  }

  lemma LeapOfEra(era: int, yoe: int)
    requires 0 <= yoe <= 399
    ensures LeapAfter(yoe) ==> IsLeap(yoe + era * 400 + 1)
  {
    DivUnique(yoe + era * 400 + 1, 4, (yoe + 1) / 4 + era * 100, (yoe + 1) % 4);
    DivUnique(yoe + era * 400 + 1, 100, (yoe + 1) / 100 + era * 4, (yoe + 1) % 100);
    if yoe == 399 {
      DivUnique(yoe + era * 400 + 1, 400, era + 1, 0);
    }
  }

  lemma FromDaysInverts(z: int)
    ensures Ok(FromDays(z)) && ToDays(FromDays(z)) == z
  {
    hide ToDays, FromDays, DaysBefore, MonthStart, IsLeap;
    var y, doy := FromDaysParts(z);
    ToDaysClosedForm(FromDays(z));
  }

  /** Day numbers of 1 January, in closed form and one year apart. */
  lemma JanFirstStep(y: int)
    ensures JanFirst(y) == DaysBefore(y - 1) + 306 - 719468
    ensures JanFirst(y + 1) == JanFirst(y) + (if IsLeap(y) then 366 else 365)
  {
    hide ToDays, DaysBefore, IsLeap;
    ToDaysClosedForm(Date(y, 1, 1));
    ToDaysClosedForm(Date(y + 1, 1, 1));
    YearStep(y);
  }

  lemma {:induction false} JanFirstGrows(y: int, y': int)
    requires y <= y'
    ensures JanFirst(y) + 365 * (y' - y) <= JanFirst(y')
    decreases y' - y
  {
    hide JanFirst, IsLeap, DaysBefore;
    if y < y' {
      JanFirstGrows(y, y' - 1);
      JanFirstStep(y' - 1);
    }
  }

  /** Zero-based day of the year. */
  function YearDay(d: Date): int {
    MonthStart(d.month) + d.day - 1 + (if d.month <= 2 then -306 else if IsLeap(d.year) then 60 else 59)
  }

  lemma WithinYear(d: Date)
    ensures ToDays(d) == JanFirst(d.year) + YearDay(d)
    ensures Ok(d) ==> 0 <= YearDay(d) < (if IsLeap(d.year) then 366 else 365)
    ensures Ok(d) ==> JanFirst(d.year) <= ToDays(d) < JanFirst(d.year + 1)
  {
    hide ToDays, JanFirst, DaysBefore, IsLeap;
    ToDaysClosedForm(d);
    JanFirstStep(d.year);
    YearStep(d.year);
  }

  lemma YearDayOrder(a: Date, b: Date)
    requires Ok(a) && Ok(b) && a.year == b.year && a.month < b.month
    ensures YearDay(a) < YearDay(b)
  {
    hide IsLeap;
  }

  /** Date order is day-count order. */
  lemma OrderAgrees(a: Date, b: Date)
    requires Ok(a) && Ok(b)
    ensures Before(a, b) <==> ToDays(a) < ToDays(b)
  {
    hide ToDays, JanFirst, YearDay, IsLeap;
    if Before(a, b) {
      BeforeCounts(a, b);
    } else if a != b {
      BeforeCounts(b, a);
    }
  }

  lemma BeforeCounts(a: Date, b: Date)
    requires Ok(a) && Ok(b) && Before(a, b)
    ensures ToDays(a) < ToDays(b)
  {
    hide ToDays, JanFirst, IsLeap, LastDay, MonthStart;
    WithinYear(a);
    WithinYear(b);
    if a.year < b.year {
      JanFirstGrows(a.year + 1, b.year);
    } else if a.month < b.month {
      YearDayOrder(a, b);
    }
  }

  lemma ToDaysInverts(d: Date)
    requires Ok(d)
    ensures FromDays(ToDays(d)) == d
  {
    hide ToDays, FromDays, Ok;
    FromDaysInverts(ToDays(d));
    OrderAgrees(d, FromDays(ToDays(d)));
    OrderAgrees(FromDays(ToDays(d)), d);
  }

  /** `n` steps of the reference calendar. */
  function Advance(d: Date, n: nat): Date {
    if n == 0 then d else NextDay(Advance(d, n - 1))
  }

  /**
   * `from_days` is counting one day at a time: from any day whatever, `n` days later
   * is `n` steps of the calendar. With `EpochIsZero` this fixes it on every day.
   */
  lemma {:induction false} CountingAgrees(z: int, n: nat)
    ensures FromDays(z + n) == Advance(FromDays(z), n)
  {
    hide ToDays, FromDays, Ok, NextDay;
    if n > 0 {
      CountingAgrees(z, n - 1);
      FromDaysInverts(z + n - 1);
      NextDayCounts(FromDays(z + n - 1));
      ToDaysInverts(NextDay(FromDays(z + n - 1)));
    }
  }

  lemma YearOf(z: int, y: int)
    ensures FromDays(z).year == y <==> JanFirst(y) <= z < JanFirst(y + 1)
  {
    hide ToDays, FromDays, JanFirst;
    var d := FromDays(z);
    FromDaysInverts(z);
    WithinYear(d);
    if d.year < y {
      JanFirstGrows(d.year + 1, y);
    } else if y < d.year {
      JanFirstGrows(y + 1, d.year);
    }
  }

  lemma EpochIsZero()
    ensures ToDays(Date(1970, 1, 1)) == 0
  {
    ToDaysClosedForm(Date(1970, 1, 1));
  }

  // ----- The 16-bit year -----

  /** `from_days` as the code returns it: `date::year` keeps 16 bits. */
  function FromDays16(z: int): Date {
    var d := FromDays(z);
    d.(year := ToInt16(d.year))
  }

  const MIN_DAY := -12687794
  const MAX_DAY := 11248737

  lemma DayLimits()
    ensures JanFirst(-32768) == MIN_DAY && JanFirst(32768) == MAX_DAY + 1
  {
    hide ToDays, JanFirst;
    JanFirstStep(-32768);
    JanFirstStep(32768);
  }

  /** The narrowed conversion is undone by `to_days` on exactly the days of the 65536 years. */
  lemma Narrowed(z: int)
    ensures ToDays(FromDays16(z)) == z <==> MIN_DAY <= z <= MAX_DAY
  {
    hide ToDays, FromDays, JanFirst, IsLeap, LastDay;
    var d, d' := FromDays(z), FromDays16(z);
    FromDaysInverts(z);
    WithinYear(d);
    DayLimits();
    if d.year < -32768 {
      JanFirstGrows(d.year + 1, -32768);
      NarrowedElsewhere(d, d');
    } else if d.year > 32767 {
      JanFirstGrows(32768, d.year);
      NarrowedElsewhere(d, d');
    } else {
      assert d' == d;
      JanFirstGrows(-32768, d.year);
      JanFirstGrows(d.year + 1, 32768);
    }
  }

  /** Whatever the day, the narrowed date lies in the 65536 years. */
  lemma NarrowedBounds(z: int)
    ensures MIN_DAY <= ToDays(FromDays16(z)) <= MAX_DAY
  {
    hide ToDays, FromDays, JanFirst, IsLeap;
    var y := FromDays16(z).year;
    FromDaysInverts(z);
    WithinYear(FromDays16(z));
    DayLimits();
    JanFirstStep(y);
    JanFirstGrows(-32768, y);
    JanFirstGrows(y + 1, 32768);
  }

  lemma NarrowedElsewhere(d: Date, d': Date)
    requires Ok(d) && d' == d.(year := ToInt16(d.year)) && d'.year != d.year
    ensures ToDays(d') != ToDays(d)
  {
    hide ToDays, JanFirst, IsLeap, LastDay;
    WithinYear(d);
    WithinYear(d');
    if d.year < d'.year {
      JanFirstGrows(d.year, d'.year);
    } else {
      JanFirstGrows(d'.year, d.year);
    }
  }
}
