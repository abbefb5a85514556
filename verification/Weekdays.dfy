/**
 * Weekdays of date.h: `weekday_from_days` over 32-bit integers, weekday arithmetic,
 * and the "n-th" and "last" weekday of a month.
 */
module Weekdays {
  import opened MachineInt
  import opened Civil

  type Weekday = n: nat | n < 7

  const SUNDAY: Weekday := 0
  const THURSDAY: Weekday := 4

  /** The weekday of a day number: 1970-01-01 was a Thursday. */
  function WeekdayOf(z: int): Weekday {
    (z + 4) % 7
  }

  // ----- The code's three ways to compute it -----

  predicate IsInt32(z: int) {
    -0x8000_0000 <= z < 0x8000_0000
  }

  /** `weekday::weekday_from_days` of date.h, on 32-bit unsigned integers. */
  function WeekdayFromDays(z: int): nat
    requires IsInt32(z)
  {
    var u := ToUint32(z);
    if z >= -4 then ToUint32(u + 4) % 7 else u % 7
  }

  /** The signed form in islamic.h, julian.h and, through `to_iso_encoding`, iso_week.h. */
  function SignedWeekdayFromDays(z: int): int {
    if z >= -4 then TruncMod(z + 4, 7) else TruncMod(z + 5, 7) + 6
  }

  lemma WeekdayFromDaysAgrees(z: int)
    requires IsInt32(z)
    ensures WeekdayFromDays(z) == WeekdayOf(z) == SignedWeekdayFromDays(z)
  {
    var q, r := (z + 4) / 7, (z + 4) % 7;
    if z < -4 {
      // 2^32 is 4 modulo 7, so the wrapped value needs no offset.
      assert ToUint32(z) == z + 0x1_0000_0000;
      DivUnique(z + 0x1_0000_0000, 7, q + 613566756, r);
      DivUnique(-(z + 5), 7, -q - 1, 6 - r);
    } else {
      assert ToUint32(ToUint32(z) + 4) == z + 4;
    }
  }

  /** `operator-` on weekdays: the days from `y` forward to `x`. */
  function Minus(x: Weekday, y: Weekday): int {
    var wdu := x - y;
    var wk := TruncDiv(if wdu >= 0 then wdu else wdu - 6, 7);
    wdu - wk * 7
  }

  lemma MinusIsModular(x: Weekday, y: Weekday)
    ensures Minus(x, y) == if x >= y then x - y else x - y + 7
  {
    EraIsFloor(x - y, 7);
  }

  /** `operator+`: the weekday constructor turns 7 into 0. */
  function Plus(x: Weekday, days: int): int {
    var wdu := x + days;
    var wk := TruncDiv(if wdu >= 0 then wdu else wdu - 6, 7);
    var wd := wdu - wk * 7;
    if wd != 7 then wd else 0
  }

  lemma PlusIsModular(z: int, days: int)
    ensures Plus(WeekdayOf(z), days) == WeekdayOf(z + days)
  {
    var x := WeekdayOf(z);
    EraIsFloor(x + days, 7);
    var q := (x + days) / 7;
    DivUnique(z + days + 4, 7, (z + 4) / 7 + q, x + days - 7 * q);
  }

  lemma WeekdayShift(z: int, k: int)
    requires 0 <= k < 7
    ensures WeekdayOf(z + k) == if WeekdayOf(z) + k < 7 then WeekdayOf(z) + k else WeekdayOf(z) + k - 7
  {
    var q, r := (z + 4) / 7, (z + 4) % 7;
    if r + k < 7 {
      DivUnique(z + k + 4, 7, q, r + k);
    } else {
      DivUnique(z + k + 4, 7, q + 1, r + k - 7);
    }
  }

  lemma WeekdayWeeks(z: int, weeks: int)
    ensures WeekdayOf(z + 7 * weeks) == WeekdayOf(z)
  {
    DivUnique(z + 7 * weeks + 4, 7, (z + 4) / 7 + weeks, (z + 4) % 7);
  }

  /** Within seven days each weekday occurs once: `Minus` finds it. */
  lemma FirstFrom(z: int, wd: Weekday)
    ensures 0 <= Minus(wd, WeekdayOf(z)) < 7
    ensures forall d :: z <= d < z + 7 ==> (WeekdayOf(d) == wd <==> d == z + Minus(wd, WeekdayOf(z)))
  {
    hide WeekdayOf, Minus;
    MinusIsModular(wd, WeekdayOf(z));
    forall d | z <= d < z + 7
      ensures WeekdayOf(d) == wd <==> d == z + Minus(wd, WeekdayOf(z))
    {
      WeekdayShift(z, d - z);
    }
  }

  // ----- Days of one month -----

  lemma MonthDays(y: int, m: nat, k: nat)
    ensures ToDays(Date(y, m, k)) == ToDays(Date(y, m, 1)) + k - 1
    ensures Ok(Date(y, m, k)) ==> FromDays(ToDays(Date(y, m, 1)) + k - 1) == Date(y, m, k)
  {
    hide ToDays, FromDays, Ok, DaysBefore, MonthStart;
    ToDaysClosedForm(Date(y, m, k));
    ToDaysClosedForm(Date(y, m, 1));
    if Ok(Date(y, m, k)) {
      ToDaysInverts(Date(y, m, k));
    }
  }

  // ----- The n-th weekday of a month -----

  datatype NthWeekday = NthWeekday(year: int, month: nat, weekday: Weekday, index: nat)

  /** `year_month_weekday::to_days`. */
  function NthToDays(w: NthWeekday): int {
    var d := ToDays(Date(w.year, w.month, 1));
    d + (Minus(w.weekday, WeekdayOf(d)) + (w.index - 1) * 7)
  }

  /** `year_month_weekday::from_days`. */
  function NthFromDays(z: int): NthWeekday {
    var ymd := FromDays(z);
    FromDaysInverts(z);
    NthWeekday(ymd.year, ymd.month, WeekdayOf(z), (ymd.day - 1) / 7 + 1)
  }

  /** `year_month_weekday::ok`. */
  predicate NthOk(w: NthWeekday) {
    1 <= w.month <= 12 && 1 <= w.index
    && (w.index <= 4
        || Minus(w.weekday, WeekdayOf(ToDays(Date(w.year, w.month, 1)))) + (w.index - 1) * 7 + 1
           <= LastDay(w.year, w.month))
  }

  lemma NthToDaysInverts(w: NthWeekday)
    requires NthOk(w)
    ensures NthFromDays(NthToDays(w)) == w
  {
    hide ToDays, FromDays, IsLeap, WeekdayOf, Minus;
    var first := ToDays(Date(w.year, w.month, 1));
    FirstFrom(first, w.weekday);
    var k := Minus(w.weekday, WeekdayOf(first));
    WeekdayWeeks(first + k, w.index - 1);
    var day := k + (w.index - 1) * 7 + 1;
    assert WeekdayOf(first + k + 7 * (w.index - 1)) == w.weekday;
    assert 28 <= LastDay(w.year, w.month);
    assert Ok(Date(w.year, w.month, day));
    MonthDays(w.year, w.month, day);
    assert NthToDays(w) == first + day - 1;
    DivUnique(k + (w.index - 1) * 7, 7, w.index - 1, k);
  }

  lemma NthFromDaysInverts(z: int)
    ensures NthOk(NthFromDays(z)) && NthToDays(NthFromDays(z)) == z
  {
    hide ToDays, FromDays, LastDay, WeekdayOf, Minus;
    var ymd := FromDays(z);
    FromDaysInverts(z);
    MonthDays(ymd.year, ymd.month, ymd.day);
    var first := ToDays(Date(ymd.year, ymd.month, 1));
    var n, k := (ymd.day - 1) / 7, (ymd.day - 1) % 7;
    WeekdayWeeks(first + k, n);
    assert z == first + k + 7 * n;
    FirstFrom(first, WeekdayOf(z));
    assert WeekdayOf(first + k) == WeekdayOf(z);
  }

  /** `from_days` as the code returns it: `date::year` keeps 16 bits. */
  function NthFromDays16(z: int): NthWeekday {
    var w := NthFromDays(z);
    w.(year := ToInt16(w.year))
  }

  /** A named weekday lies at most five weeks past the first of its month. */
  lemma NthNear(w: NthWeekday)
    requires 1 <= w.month <= 12 && 1 <= w.index <= 5
    ensures JanFirst(w.year) <= NthToDays(w) < JanFirst(w.year + 1) + 40
  {
    hide ToDays, JanFirst, IsLeap, WeekdayOf, Minus;
    WithinYear(Date(w.year, w.month, 1));
    MinusIsModular(w.weekday, WeekdayOf(ToDays(Date(w.year, w.month, 1))));
  }

  /** The narrowed conversion is undone on exactly the days of the 65536 years. */
  lemma NthNarrowed(z: int)
    ensures NthToDays(NthFromDays16(z)) == z <==> MIN_DAY <= z <= MAX_DAY
  {
    hide ToDays, FromDays, JanFirst, NthToDays, WeekdayOf, IsLeap;
    var y, y' := FromDays(z).year, NthFromDays16(z).year;
    NthFromDaysInverts(z);
    FromDaysInverts(z);
    YearOf(z, y);
    NthNear(NthFromDays16(z));
    DayLimits();
    if y < -32768 {
      JanFirstGrows(y + 1, -32768);
      JanFirstGrows(-32768, y');
    } else if y > 32767 {
      JanFirstGrows(32768, y);
      JanFirstGrows(y' + 1, 32768);
      JanFirstGrows(y' + 1, y);
    } else {
      JanFirstGrows(-32768, y);
      JanFirstGrows(y + 1, 32768);
    }
  }

  // ----- The last weekday of a month -----

  /** `year_month_weekday_last::to_days`. */
  function LastToDays(y: int, m: nat, wd: Weekday): int {
    var d := ToDays(Date(y, m, LastDay(y, m)));
    d - Minus(WeekdayOf(d), wd)
  }

  /** Day `z` lies in the final seven days of the month. */
  predicate InLastWeek(z: int, y: int, m: nat) {
    var d := FromDays(z);
    d.year == y && d.month == m && LastDay(y, m) - 7 < d.day
  }

  lemma LastToDaysFindsIt(y: int, m: nat, wd: Weekday, z: int)
    requires 1 <= m <= 12
    ensures z == LastToDays(y, m, wd) <==> InLastWeek(z, y, m) && WeekdayOf(z) == wd
  {
    hide ToDays, FromDays, IsLeap, WeekdayOf, Minus;
    var n := LastDay(y, m);
    var last := ToDays(Date(y, m, n));
    MonthDays(y, m, n);
    var back := Minus(WeekdayOf(last), wd);
    FirstFrom(last - 6, wd);
    LastBack(last, wd);
    assert Ok(Date(y, m, n - back));
    MonthDays(y, m, n - back);
    assert LastToDays(y, m, wd) == last - back == ToDays(Date(y, m, n - back));
    assert WeekdayOf(last - back) == wd;
    FromDaysInverts(z);
    if InLastWeek(z, y, m) {
      MonthDays(y, m, FromDays(z).day);
      assert z == last - n + FromDays(z).day;
    }
  }

  /** Going back from a day to a weekday is going forward from six days earlier. */
  lemma LastBack(last: int, wd: Weekday)
    ensures 0 <= Minus(WeekdayOf(last), wd) < 7
    ensures 6 - Minus(WeekdayOf(last), wd) == Minus(wd, WeekdayOf(last - 6))
  {
    hide WeekdayOf, Minus;
    MinusIsModular(WeekdayOf(last), wd);
    MinusIsModular(wd, WeekdayOf(last - 6));
    WeekdayShift(last - 6, 6);
  }
}
