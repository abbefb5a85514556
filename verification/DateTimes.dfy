/**
 * `DateTime` of Date.cpp: seconds since the epoch to calendar fields and back, and the
 * hand-written daylight-saving rule. The process-wide time zone offset and daylight flag
 * of the C library are the parameters of `Zone`.
 */
module DateTimes {
  import opened MachineInt
  import opened Civil
  import opened Weekdays

  const DAY := 86400
  const HOUR := 3600

  /** `GetTimeZone()` and `TimeZoneSupportDST()`. */
  datatype Zone = Zone(offset: int, daylight: bool)

  datatype Fields = Fields(year: int, month: int, day: int, hour: int, minute: int, second: int)

  function DivFloor(a: int, b: int): int
    requires b > 0
  {
    if a < 0 && TruncMod(a, b) != 0 then TruncDiv(a, b) - 1 else TruncDiv(a, b)
  }

  lemma DivFloorIsFloor(a: int, b: int)
    requires b > 0
    ensures DivFloor(a, b) == a / b
    ensures (if TruncMod(a, b) < 0 then TruncMod(a, b) + b else TruncMod(a, b)) == a % b
  {
    var q, r := (-a) / b, (-a) % b;
    if a < 0 {
      assert -a == q * b + r;
      assert TruncMod(a, b) == -r;
      if r == 0 {
        DivUnique(a, b, -q, 0);
      } else {
        assert a == (-q - 1) * b + (b - r);
        DivUnique(a, b, -q - 1, b - r);
      }
    } else {
      assert a == a / b * b + a % b;
    }
  }

  /** The seconds of the day, as the code computes them from a C++ remainder. */
  function SecondOfDay(e: int): (s: int)
    ensures 0 <= s < DAY && e == DAY * (e / DAY) + s
  {
    DivFloorIsFloor(e, DAY);
    if TruncMod(e, DAY) < 0 then TruncMod(e, DAY) + DAY else TruncMod(e, DAY)
  }

  function DayOf(e: int): (z: int)
    ensures z == e / DAY
  {
    DivFloorIsFloor(e, DAY);
    DivFloor(e, DAY)
  }

  /** The fields `FromEpochNoConvert` stores; conversion to `date::days` keeps 32 bits. */
  function FieldsOf(e: int): Fields {
    var ymd := FromDays16(ToInt32(DayOf(e)));
    var s := SecondOfDay(e);
    Fields(ymd.year, ymd.month, ymd.day, s / 60 / 60 % 24, s / 60 % 60, s % 60)
  }

  /** The day the fields name; conversion to `date::month` and `date::day` keeps eight bits. */
  function DayNumber(f: Fields): int {
    ToDays(Date(ToInt16(f.year), f.month % 256, f.day % 256))
  }

  function Clock(f: Fields): int {
    f.hour * HOUR + f.minute * 60 + f.second
  }

  /**
   * `ToEpochNoConvert`. The count of `date::days` is an `int`, and so is its product with the
   * seconds of a day: it overflows, which two's complement hardware wraps.
   */
  function EpochOf(f: Fields): int {
    ToInt32(DayNumber(f) * DAY) + Clock(f)
  }

  /** Fields out of range: the date keeps 16 and 8 bits, the clock counts on. */
  lemma FieldsWrap(f: Fields, years: int, months: int, days: int, h: int, m: int, s: int)
    ensures EpochOf(Fields(f.year + 0x1_0000 * years, f.month + 256 * months, f.day + 256 * days,
                           f.hour + h, f.minute + m, f.second + s))
            == EpochOf(f) + 3600 * h + 60 * m + s
    ensures 1 <= f.month <= 12 && 1 <= f.day <= 31 && -0x8000 <= f.year < 0x8000
            ==> DayNumber(f) == ToDays(Date(f.year, f.month, f.day))
  {
    hide ToDays;
    DivUnique(f.year + 0x1_0000 * years + 0x8000, 0x1_0000, (f.year + 0x8000) / 0x1_0000 + years, (f.year + 0x8000) % 0x1_0000);
    DivUnique(f.month + 256 * months, 256, f.month / 256 + months, f.month % 256);
    DivUnique(f.day + 256 * days, 256, f.day / 256 + days, f.day % 256);
  }

  /** The days whose seconds fit that product: up to 2038-01-19. */
  predicate DayFits(z: int) {
    -24855 <= z <= 24855
  }

  predicate InRange(e: int) {
    DayFits(e / DAY)
  }

  lemma ProductFits(z: int)
    ensures ToInt32(z * DAY) == z * DAY <==> DayFits(z)
  {
  }

  /** The stored fields name the very instant, on exactly the days whose year fits 16 bits. */
  lemma FieldsNameInstant(e: int)
    ensures DayNumber(FieldsOf(e)) * DAY + Clock(FieldsOf(e)) == e <==> MIN_DAY <= e / DAY <= MAX_DAY
  {
    hide ToDays, FromDays16, DivFloor, SecondOfDay;
    var z := e / DAY;
    Bytes(ToInt32(z));
    ClockParts(SecondOfDay(e));
    NarrowedBounds(ToInt32(z));
    if MIN_DAY <= z <= MAX_DAY {
      Narrowed(z);
    }
  }

  /** Seconds to fields and back loses nothing on exactly the days that fit the product. */
  lemma EpochRoundTrip(e: int)
    ensures EpochOf(FieldsOf(e)) == e <==> InRange(e)
  {
    hide FieldsOf, DayNumber, Clock, SecondOfDay, ToInt32;
    var z := e / DAY;
    FieldsNameInstant(e);
    ClockOfFields(e);
    ProductFits(z);
    ProductFits(DayNumber(FieldsOf(e)));
    WrapTwice(DayNumber(FieldsOf(e)) * DAY);
  }

  lemma WrapTwice(x: int)
    ensures ToInt32(ToInt32(x)) == ToInt32(x)
  {
  }

  lemma ClockOfFields(e: int)
    ensures Clock(FieldsOf(e)) == SecondOfDay(e)
  {
    hide FromDays16, DayOf, SecondOfDay;
    ClockParts(SecondOfDay(e));
  }

  /** The first instant that is lost: midnight of 2038-01-20 comes back as an instant of 1901. */
  lemma EpochFails()
    ensures EpochOf(FieldsOf(2147558400)) == -2147408896
  {
    var e := 2147558400;
    assert SecondOfDay(e) == 0;
    hide FieldsOf, DayNumber, Clock, SecondOfDay;
    FieldsNameInstant(e);
    ClockOfFields(e);
    assert DayNumber(FieldsOf(e)) * DAY == e;
  }

  /** A calendar date of a 16-bit year with a time of day. */
  predicate FieldsOk(f: Fields) {
    -0x8000 <= f.year < 0x8000 && 1 <= f.month <= 12 && 1 <= f.day <= LastDay(f.year, f.month)
    && 0 <= f.hour < 24 && 0 <= f.minute < 60 && 0 <= f.second < 60
  }

  /** The fields of the instant that proper fields name are those fields. */
  lemma FieldsRestored(f: Fields)
    requires FieldsOk(f)
    ensures FieldsOf(DayNumber(f) * DAY + Clock(f)) == f
  {
    hide ToDays, FromDays, IsLeap, DayOf, SecondOfDay, JanFirst;
    var d := Date(f.year, f.month, f.day);
    DivUnique(DayNumber(f) * DAY + Clock(f), DAY, ToDays(d), Clock(f));
    ToDaysInverts(d);
    WithinYear(d);
    DayLimits();
    JanFirstGrows(-32768, f.year);
    JanFirstGrows(f.year + 1, 32768);
    ClockFields(f.hour, f.minute, f.second);
  }

  /** Fields to seconds and back loses nothing, on proper fields of exactly the same days. */
  lemma FieldsRoundTrip(f: Fields)
    requires FieldsOk(f)
    ensures FieldsOf(EpochOf(f)) == f <==> DayFits(DayNumber(f))
  {
    hide FieldsOf, DayNumber, ToInt32;
    var e := EpochOf(f);
    FieldsRestored(f);
    ProductFits(DayNumber(f));
    ClockFields(f.hour, f.minute, f.second);
    if FieldsOf(e) == f {
      WrapBounds(DayNumber(f) * DAY);
      FieldsNameInstant(e);
    }
  }

  lemma WrapBounds(x: int)
    ensures -0x8000_0000 <= ToInt32(x) < 0x8000_0000
  {
  }

  lemma ClockFields(h: int, m: int, s: int)
    requires 0 <= h < 24 && 0 <= m < 60 && 0 <= s < 60
    ensures var t := h * HOUR + m * 60 + s;
            0 <= t < DAY && t / 60 / 60 % 24 == h && t / 60 % 60 == m && t % 60 == s
  {
    var t := h * HOUR + m * 60 + s;
    DivUnique(t, 60, 60 * h + m, s);
    DivUnique(60 * h + m, 60, h, m);
  }

  lemma Bytes(z: int)
    ensures var d := FromDays16(z);
            d.month % 256 == d.month && d.day % 256 == d.day && ToInt16(d.year) == d.year
  {
    hide ToDays, FromDays, IsLeap;
    FromDaysInverts(z);
  }

  lemma ClockParts(s: int)
    requires 0 <= s < DAY
    ensures s / 60 / 60 % 24 * HOUR + s / 60 % 60 * 60 + s % 60 == s
  {
  }

  // ----- Daylight saving -----

  /** The branch that SetToLocal, SetToUTC and SetToNow share. */
  predicate IsDst(local: int) {
    var ymd := FromDays(DayOf(local));
    var dow := WeekdayOf(DayOf(local));
    var hours := SecondOfDay(local) / HOUR % 24;
    if 3 < ymd.month < 11 then true
    else if ymd.month == 3 then
      ymd.day > 14
      || (8 <= ymd.day
          && var sunday := if ymd.day - dow < 8 then ymd.day - dow + 7 else ymd.day - dow;
             ymd.day > sunday || (ymd.day == sunday && hours >= 2))
    else if ymd.month == 11 then
      1 <= ymd.day <= 7
      && var sunday := if ymd.day - dow < 1 then ymd.day - dow + 7 else ymd.day - dow;
         ymd.day < sunday || (ymd.day == sunday && hours <= 1)
    else false
  }

  /** Second Sunday of March, 02:00. */
  function DstStart(y: int): int {
    NthToDays(NthWeekday(y, 3, SUNDAY, 2)) * DAY + 2 * HOUR
  }

  /** First Sunday of November, 02:00. */
  function DstEnd(y: int): int {
    NthToDays(NthWeekday(y, 11, SUNDAY, 1)) * DAY + 2 * HOUR
  }

  /** The Sunday `day - dow`, moved up a week when it falls before `lo`, is the one in `lo .. lo + 6`. */
  lemma SundayOfMonth(y: int, m: nat, n: nat, day: nat)
    requires 1 <= m <= 12 && 1 <= n <= 4 && 7 * n - 6 <= day <= 7 * n
    ensures var z := ToDays(Date(y, m, day));
            var dow := WeekdayOf(z);
            var sunday := if day - dow < 7 * n - 6 then day - dow + 7 else day - dow;
            NthToDays(NthWeekday(y, m, SUNDAY, n)) == z + (sunday - day)
  {
    hide ToDays, FromDays, IsLeap, WeekdayOf, Minus;
    var first := ToDays(Date(y, m, 1));
    var lo := first + 7 * (n - 1);
    MonthDays(y, m, day);
    var z := first + day - 1;
    var k := Minus(SUNDAY, WeekdayOf(first));
    WeekdayWeeks(first, n - 1);
    FirstFrom(lo, SUNDAY);
    MinusIsModular(SUNDAY, WeekdayOf(first));
    WeekdayShift(lo, z - lo);
  }

  lemma SundayDay(y: int, m: nat, n: nat)
    requires 1 <= m <= 12 && 1 <= n <= 4
    ensures var z := NthToDays(NthWeekday(y, m, SUNDAY, n));
            ToDays(Date(y, m, 7 * n - 6)) <= z <= ToDays(Date(y, m, 7 * n))
  {
    hide ToDays, FromDays, Ok, WeekdayOf, Minus;
    MinusIsModular(SUNDAY, WeekdayOf(ToDays(Date(y, m, 1))));
    MonthDays(y, m, 7 * n - 6);
    MonthDays(y, m, 7 * n);
  }

  /** Days of a civil year against a fixed date of the same year. */
  lemma DayAgainst(z: int, m: nat, day: nat)
    requires 1 <= m <= 12 && 1 <= day <= 28
    ensures var d := FromDays(z);
            z < ToDays(Date(d.year, m, day)) <==> d.month < m || (d.month == m && d.day < day)
  {
    hide ToDays, FromDays, IsLeap;
    FromDaysInverts(z);
    OrderAgrees(FromDays(z), Date(FromDays(z).year, m, day));
  }

  lemma HourMark(e: int, z: int)
    ensures e < z * DAY + 2 * HOUR <==> e / DAY < z || (e / DAY == z && SecondOfDay(e) / HOUR % 24 <= 1)
  {
    var s := SecondOfDay(e);
    assert s / HOUR % 24 <= 1 <==> s < 2 * HOUR;
  }

  lemma MarchRule(z: int)
    ensures var d := FromDays(z);
            var start := NthToDays(NthWeekday(d.year, 3, SUNDAY, 2));
            var sunday := if d.day - WeekdayOf(z) < 8 then d.day - WeekdayOf(z) + 7 else d.day - WeekdayOf(z);
            (d.month < 3 ==> z < start)
            && (d.month > 3 ==> start < z)
            && (d.month == 3 ==>
                  (d.day > 14 ==> start < z) && (d.day < 8 ==> z < start)
                  && (8 <= d.day <= 14 ==> start == z + (sunday - d.day)))
  {
    hide ToDays, FromDays, IsLeap, WeekdayOf, NthToDays;
    var d := FromDays(z);
    FromDaysInverts(z);
    SundayDay(d.year, 3, 2);
    DayAgainst(z, 3, 8);
    DayAgainst(z, 3, 15);
    MonthDays(d.year, 3, 14);
    MonthDays(d.year, 3, 15);
    if d.month == 3 && 8 <= d.day <= 14 {
      SundayOfMonth(d.year, 3, 2, d.day);
    }
  }

  lemma NovemberRule(z: int)
    ensures var d := FromDays(z);
            var end := NthToDays(NthWeekday(d.year, 11, SUNDAY, 1));
            var sunday := if d.day - WeekdayOf(z) < 1 then d.day - WeekdayOf(z) + 7 else d.day - WeekdayOf(z);
            (d.month < 11 ==> z < end)
            && (d.month > 11 ==> end < z)
            && (d.month == 11 ==>
                  (d.day > 7 ==> end < z) && (d.day <= 7 ==> end == z + (sunday - d.day)))
  {
    hide ToDays, FromDays, IsLeap, WeekdayOf, NthToDays;
    var d := FromDays(z);
    FromDaysInverts(z);
    SundayDay(d.year, 11, 1);
    DayAgainst(z, 11, 1);
    DayAgainst(z, 11, 8);
    MonthDays(d.year, 11, 7);
    MonthDays(d.year, 11, 8);
    if d.month == 11 && d.day <= 7 {
      SundayOfMonth(d.year, 11, 1, d.day);
    }
  }

  /** The branch is the half-open interval of that year's two Sundays. */
  lemma DstInterval(local: int)
    ensures var y := FromDays(local / DAY).year;
            IsDst(local) <==> DstStart(y) <= local < DstEnd(y)
  {
    hide FromDays, WeekdayOf, NthToDays, SecondOfDay, DayOf, IsLeap;
    var z := local / DAY;
    var y := FromDays(z).year;
    MarchRule(z);
    NovemberRule(z);
    HourMark(local, NthToDays(NthWeekday(y, 3, SUNDAY, 2)));
    HourMark(local, NthToDays(NthWeekday(y, 11, SUNDAY, 1)));
    FromDaysInverts(z);
  }

  // ----- Local time and back -----

  /** The seconds `SetToLocal` stores for the instant `e`. */
  function LocalOf(e: int, zone: Zone): int {
    var local := e + zone.offset;
    if zone.daylight && IsDst(local) then local + HOUR else local
  }

  /** The seconds `SetToUTC` stores for local seconds; the rule is asked about the UTC value. */
  function UtcOf(local: int, zone: Zone): int {
    var utc := local - zone.offset;
    if zone.daylight && IsDst(utc) then utc - HOUR else utc
  }

  /** Both transitions lie well inside their year. */
  lemma TransitionsInside(y: int)
    ensures (JanFirst(y) + 60) * DAY <= DstStart(y)
    ensures DstStart(y) + 200 * DAY <= DstEnd(y) <= (JanFirst(y + 1) - 50) * DAY
  {
    hide ToDays, JanFirst, NthToDays, DaysBefore, IsLeap;
    SundayDay(y, 3, 2);
    SundayDay(y, 11, 1);
    WithinYear(Date(y, 3, 8));
    WithinYear(Date(y, 3, 14));
    WithinYear(Date(y, 11, 1));
    WithinYear(Date(y, 11, 7));
    JanFirstStep(y);
  }

  /** Around year `y` the rule is that year's interval, also a month into the neighbours. */
  lemma DstNear(x: int, y: int)
    requires (JanFirst(y) - 30) * DAY <= x < (JanFirst(y + 1) + 30) * DAY
    ensures IsDst(x) <==> DstStart(y) <= x < DstEnd(y)
  {
    hide JanFirst, IsDst, DstStart, DstEnd, FromDays, DaysBefore, IsLeap;
    var y' := FromDays(x / DAY).year;
    DstInterval(x);
    YearOf(x / DAY, y');
    TransitionsInside(y);
    TransitionsInside(y');
    if y' < y {
      JanFirstGrows(y' + 1, y);
    } else if y < y' {
      JanFirstGrows(y + 1, y');
    }
  }

  /**
   * The hours of year `y` whose instants do not survive the trip to local time and back:
   * `SetToUTC` asks the rule about the UTC clock, `SetToLocal` about the standard clock.
   */
  predicate SpringFold(e: int, offset: int, y: int) {
    if offset > 0 then DstStart(y) - offset <= e < DstStart(y) - Min(offset, HOUR)
    else DstStart(y) <= e < DstStart(y) - offset
  }

  predicate AutumnFold(e: int, offset: int, y: int) {
    DstEnd(y) - Max(HOUR, offset) <= e < DstEnd(y) + Max(0, -offset)
  }

  /** The shifts alone, before the seconds pass through fields. */
  lemma ShiftBack(e: int, zone: Zone)
    ensures UtcOf(LocalOf(e, zone), zone) - e in {-HOUR, 0, HOUR}
    ensures UtcOf(LocalOf(e, zone), zone) == e
            <==> !zone.daylight || IsDst(e + zone.offset) == IsDst(LocalOf(e, zone) - zone.offset)
  {
    hide IsDst;
  }

  predicate Folded(e: int, zone: Zone) {
    var y := FromDays(e / DAY).year;
    zone.daylight && (SpringFold(e, zone.offset, y) || AutumnFold(e, zone.offset, y))
  }

  /** For any offset up to twenty days, the shifts miss in exactly the two folds. */
  lemma ShiftBackExact(e: int, zone: Zone)
    requires -20 * DAY <= zone.offset <= 20 * DAY
    ensures UtcOf(LocalOf(e, zone), zone) == e <==> !Folded(e, zone)
  {
    hide IsDst, DstStart, DstEnd, FromDays, JanFirst;
    var y := FromDays(e / DAY).year;
    YearOf(e / DAY, y);
    TransitionsInside(y);
    DstNear(e, y);
    DstNear(e + HOUR, y);
    DstNear(e + zone.offset, y);
  }

  /** What `DateTime(e).ToLocal().ToEpoch()` returns: seconds become fields and seconds again at every step. */
  function Trip(e: int, zone: Zone): int {
    var local := LocalOf(EpochOf(FieldsOf(e)), zone);
    var utc := UtcOf(EpochOf(FieldsOf(local)), zone);
    EpochOf(FieldsOf(utc))
  }

  /** The three instants of the trip fit the product of `ToEpochNoConvert`. */
  predicate TripFits(e: int, zone: Zone) {
    InRange(e) && InRange(LocalOf(e, zone)) && InRange(UtcOf(LocalOf(e, zone), zone))
  }

  lemma TripShifts(e: int, zone: Zone)
    requires TripFits(e, zone)
    ensures Trip(e, zone) == UtcOf(LocalOf(e, zone), zone)
  {
    hide EpochOf, FieldsOf, LocalOf, UtcOf, InRange;
    EpochRoundTrip(e);
    EpochRoundTrip(LocalOf(e, zone));
    EpochRoundTrip(UtcOf(LocalOf(e, zone), zone));
  }

  /** A day inside the range at both ends, every offset up to 23 hours is safe. */
  lemma TripFitsInside(e: int, zone: Zone)
    requires -24854 <= e / DAY <= 24854 && -23 * HOUR <= zone.offset <= 23 * HOUR
    ensures TripFits(e, zone)
  {
    hide IsDst;
    ShiftBack(e, zone);
  }

  lemma LocalRoundTrip(e: int, zone: Zone)
    requires TripFits(e, zone)
    ensures Trip(e, zone) - e in {-HOUR, 0, HOUR}
    ensures Trip(e, zone) == e
            <==> !zone.daylight || IsDst(e + zone.offset) == IsDst(LocalOf(e, zone) - zone.offset)
  {
    hide Trip, TripFits, IsDst, LocalOf, UtcOf;
    TripShifts(e, zone);
    ShiftBack(e, zone);
  }

  /** For any offset up to twenty days, the trip fails in exactly the two folds. */
  lemma LocalRoundTripExact(e: int, zone: Zone)
    requires TripFits(e, zone) && -20 * DAY <= zone.offset <= 20 * DAY
    ensures Trip(e, zone) == e <==> !Folded(e, zone)
  {
    hide Trip, TripFits, Folded, LocalOf, UtcOf;
    TripShifts(e, zone);
    ShiftBackExact(e, zone);
  }

  /** Every zone with daylight saving loses the hour before each autumn change. */
  lemma AutumnAlwaysFolds(zone: Zone, y: int)
    requires zone.daylight && -20 * DAY <= zone.offset <= 20 * DAY
    ensures var e := DstEnd(y) - HOUR;
            Folded(e, zone) && UtcOf(LocalOf(e, zone), zone) != e && (TripFits(e, zone) ==> Trip(e, zone) != e)
  {
    hide IsDst, DstStart, DstEnd, FromDays, JanFirst, UtcOf, LocalOf, Trip, TripFits;
    var e := DstEnd(y) - HOUR;
    TransitionsInside(y);
    YearOf(e / DAY, y);
    ShiftBackExact(e, zone);
    if TripFits(e, zone) {
      TripShifts(e, zone);
    }
  }

  class DateTime {
    var year: int
    var month: int
    var day: int
    var hour: int
    var minute: int
    var second: int
    var isLocal: bool

    function Stored(): Fields
      reads this
    {
      Fields(year, month, day, hour, minute, second)
    }

    constructor (epoch: int)
      ensures !isLocal && Stored() == FieldsOf(epoch)
    {
      isLocal := false;
      new;
      FromEpochNoConvert(epoch);
    }

    constructor Copy(dt: DateTime)
      ensures isLocal == dt.isLocal && Stored() == dt.Stored()
    {
      year, month, day := dt.year, dt.month, dt.day;
      hour, minute, second := dt.hour, dt.minute, dt.second;
      isLocal := dt.isLocal;
    }

    method FromEpochNoConvert(gmt: int)
      modifies this
      ensures isLocal == old(isLocal) && Stored() == FieldsOf(gmt)
    {
      var ymd := FromDays16(ToInt32(DayOf(gmt)));
      var secs := SecondOfDay(gmt);
      second := secs % 60;
      secs := secs / 60;
      minute := secs % 60;
      secs := secs / 60;
      hour := secs % 24;
      day := ymd.day;
      month := ymd.month;
      year := ymd.year;
    }

    method ToEpochNoConvert() returns (e: int)
      ensures e == EpochOf(Stored())
    {
      var ymd := Date(ToInt16(year), month % 256, day % 256);
      var hr := hour * HOUR + minute * 60 + second;
      e := ToInt32(ToDays(ymd) * DAY) + hr;
    }

    method SetToLocal(zone: Zone)
      modifies this
      ensures isLocal
      ensures Stored() == if old(isLocal) then old(Stored()) else FieldsOf(LocalOf(EpochOf(old(Stored())), zone))
    {
      if isLocal {
        return;
      }
      var local := ToEpochNoConvert();
      local := local + zone.offset;
      if zone.daylight {
        if IsDst(local) {
          local := local + HOUR;
        }
      }
      isLocal := true;
      FromEpochNoConvert(local);
    }

    method SetToUTC(zone: Zone)
      modifies this
      ensures !isLocal
      ensures Stored() == if old(isLocal) then FieldsOf(UtcOf(EpochOf(old(Stored())), zone)) else old(Stored())
    {
      if !isLocal {
        return;
      }
      var local := ToEpochNoConvert();
      local := local - zone.offset;
      if zone.daylight {
        if IsDst(local) {
          local := local - HOUR;
        }
      }
      isLocal := false;
      FromEpochNoConvert(local);
    }

    method ToLocal(zone: Zone) returns (dt: DateTime)
      ensures fresh(dt) && dt.isLocal
      ensures dt.Stored() == if isLocal then Stored() else FieldsOf(LocalOf(EpochOf(Stored()), zone))
    {
      dt := new DateTime.Copy(this);
      dt.SetToLocal(zone);
    }

    method ToEpoch(zone: Zone) returns (e: int)
      ensures e == if isLocal then EpochOf(FieldsOf(UtcOf(EpochOf(Stored()), zone))) else EpochOf(Stored())
    {
      if isLocal {
        var dt := new DateTime.Copy(this);
        dt.SetToUTC(zone);
        e := dt.ToEpochNoConvert();
      } else {
        e := ToEpochNoConvert();
      }
    }
  }

  /** `DateTime(e).ToEpoch()` and `DateTime(e).ToLocal().ToEpoch()`, on live objects. */
  method EpochThereAndBack(e: int, zone: Zone) returns (utc: int, back: int)
    ensures utc == e <==> InRange(e)
    ensures back == Trip(e, zone)
    ensures TripFits(e, zone) ==> back in {e - HOUR, e, e + HOUR}
    ensures TripFits(e, zone) && -20 * DAY <= zone.offset <= 20 * DAY ==> (back == e <==> !Folded(e, zone))
  {
    hide EpochOf, FieldsOf, Folded, TripFits, InRange, IsDst;
    var dt := new DateTime(e);
    utc := dt.ToEpoch(zone);
    var local := dt.ToLocal(zone);
    back := local.ToEpoch(zone);
    EpochRoundTrip(e);
    if TripFits(e, zone) {
      LocalRoundTrip(e, zone);
      if -20 * DAY <= zone.offset <= 20 * DAY {
        LocalRoundTripExact(e, zone);
      }
    }
  }
}
