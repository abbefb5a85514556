/**
 * POSIX time zones of ptz.h: rules, transitions, `get_info` for instants and for local
 * times, `to_local` and `to_sys`. Times are whole seconds, and years are unbounded: the
 * 16 bits of the code's `date::year` bound the range of `Civil.Narrowed`.
 */
module PosixZone {
  import opened MachineInt
  import opened Civil
  import opened Weekdays
  import opened Text

  const DAY := 86400
  const HOUR := 3600

  /** `rule::mode_` with the fields each mode uses. */
  datatype Mode = Off | J(n: nat) | M(month: nat, week: nat, weekday: Weekday) | N(n: nat)

  datatype Rule = Rule(mode: Mode, time: int)

  datatype Zone = Zone(std: string, dst: string, offset: int, save: int, start: Rule, end: Rule)

  /** `date::sys_info`; `save` is in minutes. */
  datatype SysInfo = SysInfo(begin: int, end: int, offset: int, save: int, abbrev: string)

  datatype LocalResult = Unique | Nonexistent | Ambiguous

  /** `date::local_info`; `second` is set unless the result is unique. */
  datatype LocalInfo = LocalInfo(result: LocalResult, first: SysInfo, second: Option<SysInfo>)

  datatype SysTime = Instant(t: int) | NonexistentLocalTime | AmbiguousLocalTime

  // ----- Rules -----

  /** The day a rule names in year `y`; J and N count from 31 December and 1 January. */
  function RuleDay(mode: Mode, y: int): int
    requires mode != Off
  {
    match mode
    case J(n) => ToDays(Date(y, 1, 0)) + n + (if IsLeap(y) && n > 59 then 1 else 0)
    case M(m, n, wd) => if n == 5 then LastToDays(y, m, wd) else NthToDays(NthWeekday(y, m, wd, n))
    case N(n) => ToDays(Date(y, 1, 1)) + n
  }

  /** `rule::operator()`: local seconds. */
  function RuleAt(r: Rule, y: int): int
    requires r.mode != Off
  {
    RuleDay(r.mode, y) * DAY + r.time
  }

  /** A rule `Jn` names the same month and day every year: 29 February is never counted. */
  lemma JulianSkipsLeapDay(n: nat, y: int, y': int)
    requires 1 <= n <= 365 && !IsLeap(y')
    ensures var d, d' := FromDays(RuleDay(J(n), y)), FromDays(RuleDay(J(n), y'));
            d.year == y && d'.year == y' && d.month == d'.month && d.day == d'.day
  {
    hide ToDays, FromDays, RuleDay;
    JulianDay(n, y);
    JulianDay(n, y');
  }

  /** Month and day of the `n`-th day of a common year. */
  function CommonYearDate(n: nat, m: nat): (nat, nat)
    requires 1 <= m <= 12
    decreases 12 - m
  {
    if n <= MONTH_LENGTHS[m - 1] || m == 12 then (m, n) else CommonYearDate(n - MONTH_LENGTHS[m - 1], m + 1)
  }

  lemma JulianDay(n: nat, y: int)
    requires 1 <= n <= 365
    ensures var (m, d) := CommonYearDate(n, 1);
            FromDays(RuleDay(J(n), y)) == Date(y, m, d)
  {
    hide ToDays, FromDays, IsLeap;
    MonthDays(y, 1, 0);
    MonthGap(y, 1, 1);
    JulianFrom(n, 1, y, 0);
    var (m, d) := CommonYearDate(n, 1);
    ToDaysInverts(Date(y, m, d));
  }

  lemma MonthGap(y: int, m: nat, n: nat)
    requires 1 <= m <= 12
    ensures YearDay(Date(y, m, n)) == YearDay(Date(y, m, 1)) + n - 1
    ensures m == 1 ==> YearDay(Date(y, 1, 1)) == 0
    ensures m == 12 ==> YearDay(Date(y, 12, 1)) == if IsLeap(y) then 335 else 334
    ensures m < 12 ==> YearDay(Date(y, m + 1, 1))
                       == YearDay(Date(y, m, 1)) + MONTH_LENGTHS[m - 1] + (if m == 2 && IsLeap(y) then 1 else 0)
    ensures m == 2 ==> YearDay(Date(y, 2, 1)) == 31
    ensures m > 2 ==> YearDay(Date(y, m, 1)) >= if IsLeap(y) then 60 else 59
  {
    hide IsLeap;
  }

  /** Walking the month table from month `m`, `before` days into a common year. */
  lemma {:induction false} JulianFrom(n: nat, m: nat, y: int, before: nat)
    requires 1 <= m <= 12 && 1 <= n && n + before <= 365
    requires before == YearDay(Date(y, m, 1)) - (if m > 2 && IsLeap(y) then 1 else 0)
    ensures var (m', d) := CommonYearDate(n, m);
            Ok(Date(y, m', d))
            && ToDays(Date(y, m', d)) == JanFirst(y) + n + before - 1 + (if IsLeap(y) && n + before > 59 then 1 else 0)
    decreases 12 - m
  {
    hide ToDays, IsLeap, JanFirst, YearDay;
    MonthGap(y, m, n);
    if n <= MONTH_LENGTHS[m - 1] || m == 12 {
      WithinYear(Date(y, m, n));
    } else {
      JulianFrom(n - MONTH_LENGTHS[m - 1], m + 1, y, before + MONTH_LENGTHS[m - 1]);
    }
  }

  /** A rule `n` counts from zero and counts 29 February: day 0 is 1 January, day 365 of a common year is past its end. */
  lemma ZeroBasedDay(n: nat, y: int)
    requires n <= 365
    ensures var d := FromDays(RuleDay(N(n), y));
            if n < 365 || IsLeap(y) then d.year == y && YearDay(d) == n else d == Date(y + 1, 1, 1)
  {
    hide ToDays, FromDays, IsLeap, DaysBefore, YearDay;
    JanFirstStep(y);
    if n < 365 || IsLeap(y) {
      DayOfItsYear(JanFirst(y) + n, y);
    } else {
      ToDaysInverts(Date(y + 1, 1, 1));
    }
  }

  lemma DayOfItsYear(z: int, y: int)
    requires JanFirst(y) <= z < JanFirst(y + 1)
    ensures FromDays(z).year == y && YearDay(FromDays(z)) == z - JanFirst(y)
  {
    hide ToDays, FromDays, IsLeap, JanFirst, YearDay;
    FromDaysInverts(z);
    YearOf(z, y);
    WithinYear(FromDays(z));
  }

  /** A rule `Mm.n.d` names the `n`-th such weekday of the month, or for 5 the one in its last seven days. */
  lemma MonthRuleMeaning(m: nat, n: nat, wd: Weekday, y: int)
    requires 1 <= m <= 12 && 1 <= n <= 5
    ensures var z := RuleDay(M(m, n, wd), y);
            var d := FromDays(z);
            d.year == y && d.month == m && WeekdayOf(z) == wd
            && (if n == 5 then LastDay(y, m) - 7 < d.day else 7 * n - 7 < d.day <= 7 * n)
  {
    hide ToDays, FromDays, IsLeap, WeekdayOf, Minus, NthToDays, LastToDays;
    if n == 5 {
      LastToDaysFindsIt(y, m, wd, LastToDays(y, m, wd));
    } else {
      var w := NthWeekday(y, m, wd, n);
      NthToDaysInverts(w);
    }
  }

  // ----- Transitions as instants -----

  predicate HasRules(z: Zone) {
    z.start.mode != Off && z.end.mode != Off
  }

  /** `get_start`. */
  function Start(z: Zone, y: int): int
    requires HasRules(z)
  {
    RuleAt(z.start, y) - z.offset
  }

  /** `get_end`. */
  function End(z: Zone, y: int): int
    requires HasRules(z)
  {
    RuleAt(z.end, y) - (z.offset + z.save)
  }

  /** `ceil<minutes>`. */
  function CeilMinutes(seconds: int): int {
    -((-seconds) / 60)
  }

  /** `contant_offset`: a zone without rules. */
  function ConstantOffset(z: Zone): SysInfo {
    var begin := JanFirst(-32767) * DAY;
    var end := (ToDays(Date(32767, 12, 31)) + 1) * DAY - 1;
    if z.std != "" then SysInfo(begin, end, z.offset, 0, z.std)
    else SysInfo(begin, end, z.offset + z.save, CeilMinutes(z.save), z.dst)
  }

  function Standard(z: Zone, begin: int, end: int): SysInfo {
    SysInfo(begin, end, z.offset, 0, z.std)
  }

  function Daylight(z: Zone, begin: int, end: int): SysInfo {
    SysInfo(begin, end, z.offset + z.save, CeilMinutes(z.save), z.dst)
  }

  // ----- get_info -----

  /** `get_info(sys_time)`. */
  function InfoAt(z: Zone, st: int): SysInfo {
    if !HasRules(z) then ConstantOffset(z)
    else
      var y0 := FromDays(st / DAY).year;
      var y := if st >= Start(z, y0 + 1) then y0 + 1 else if st < End(z, y0 - 1) then y0 - 1 else y0;
      InfoInYear(z, y, st)
  }

  function InfoInYear(z: Zone, y: int, st: int): SysInfo
    requires HasRules(z)
  {
    var start, end := Start(z, y), End(z, y);
    if start <= end then
      if start <= st < end then Daylight(z, start, end)
      else if st < start then Standard(z, End(z, y - 1), start)
      else Standard(z, end, Start(z, y + 1))
    else
      if end <= st < start then Standard(z, end, start)
      else if st < end then Daylight(z, Start(z, y - 1), end)
      else Daylight(z, start, End(z, y + 1))
  }

  /** `get_info(local_time)`. */
  function LocalInfoAt(z: Zone, tp: int): LocalInfo {
    if !HasRules(z) then LocalInfo(Unique, ConstantOffset(z), None)
    else
      var y := FromDays(tp / DAY).year;
      var start, end := Start(z, y), End(z, y);
      var utcs := tp - z.offset;
      var utcd := tp - (z.offset + z.save);
      var northern := start <= end;
      if (utcs < start) != (utcd < start) then
        LocalInfo(if z.save > 0 then Nonexistent else Ambiguous,
                  Standard(z, if northern then End(z, y - 1) else end, start),
                  Some(Daylight(z, start, if northern then end else End(z, y + 1))))
      else if (utcs < end) != (utcd < end) then
        LocalInfo(if z.save > 0 then Ambiguous else Nonexistent,
                  Daylight(z, if northern then start else Start(z, y - 1), end),
                  Some(Standard(z, end, if northern then Start(z, y + 1) else start)))
      else LocalInfo(Unique, InfoAt(z, utcs), None)
  }

  function ToLocal(z: Zone, st: int): int {
    st + InfoAt(z, st).offset
  }

  /** `to_sys(local_time)`, with its two exceptions. */
  function ToSys(z: Zone, tp: int): SysTime {
    var i := LocalInfoAt(z, tp);
    match i.result
    case Nonexistent => NonexistentLocalTime
    case Ambiguous => AmbiguousLocalTime
    case Unique => Instant(tp - i.first.offset)
  }

  /** `to_sys(local_time, choose)`. */
  function ToSysChoose(z: Zone, tp: int, latest: bool): int {
    var i := LocalInfoAt(z, tp);
    if i.result == Nonexistent then i.first.end
    else if i.result == Ambiguous && latest && i.second.Some? then tp - i.second.value.offset
    else tp - i.first.offset
  }

  // ----- The hypothesis: transitions keep away from the new year and from each other -----

  /** The larger of the two offsets, in absolute value. */
  function Margin(z: Zone): nat {
    var a := if z.offset < 0 then -z.offset else z.offset;
    var b := if z.offset + z.save < 0 then -(z.offset + z.save) else z.offset + z.save;
    Max(a, b)
  }

  /** Both transitions of year `y` keep the margin from the new years around it. */
  predicate AwayIn(z: Zone, y: int)
    requires HasRules(z)
  {
    var s, e, m := Start(z, y), End(z, y), Margin(z);
    JanFirst(y) * DAY + m <= s <= JanFirst(y + 1) * DAY - m
    && JanFirst(y) * DAY + m <= e <= JanFirst(y + 1) * DAY - m
  }

  /** The two transitions of a year are at least the saving apart. */
  predicate GapIn(z: Zone, y: int)
    requires HasRules(z)
  {
    var s, e := Start(z, y), End(z, y);
    (if s <= e then e - s else s - e) >= (if z.save < 0 then -z.save else z.save)
  }

  predicate Northern(z: Zone, y: int)
    requires HasRules(z)
  {
    Start(z, y) <= End(z, y)
  }

  /** Away from the new year, and in the same order, every year. */
  ghost predicate Away(z: Zone)
    requires HasRules(z)
  {
    forall y :: AwayIn(z, y) && Northern(z, y) == Northern(z, 0)
  }

  ghost predicate Separated(z: Zone)
    requires HasRules(z)
  {
    Away(z) && forall y :: GapIn(z, y)
  }

  // ----- Which offset an instant has -----

  predicate DstIn(z: Zone, y: int, st: int)
    requires HasRules(z)
  {
    if Northern(z, y) then Start(z, y) <= st < End(z, y) else !(End(z, y) <= st < Start(z, y))
  }

  /** The adjustment of the year never fires for such a zone. */
  lemma InfoOfYear(z: Zone, st: int)
    requires HasRules(z) && Away(z)
    ensures InfoAt(z, st) == InfoInYear(z, FromDays(st / DAY).year, st)
  {
    hide Start, End, FromDays, JanFirst, InfoInYear;
    var y := FromDays(st / DAY).year;
    YearOf(st / DAY, y);
    assert AwayIn(z, y - 1) && AwayIn(z, y + 1);
  }

  /** Up to the margin into the neighbouring years, the transitions of year `y` decide. */
  lemma InfoNear(z: Zone, y: int, st: int)
    requires HasRules(z) && Away(z)
    requires JanFirst(y) * DAY - Margin(z) <= st < JanFirst(y + 1) * DAY + Margin(z)
    ensures InfoAt(z, st) == InfoInYear(z, y, st)
  {
    hide Start, End, FromDays, JanFirst, InfoAt, Margin;
    var y' := FromDays(st / DAY).year;
    YearOf(st / DAY, y');
    InfoOfYear(z, st);
    assert AwayIn(z, y) && AwayIn(z, y') && AwayIn(z, y - 1) && AwayIn(z, y + 1);
    assert Northern(z, y) == Northern(z, y');
    if y' < y {
      JanFirstGrows(y' + 1, y);
      if y' + 1 < y {
        JanFirstGrows(y' + 1, y - 1);
      }
    } else if y < y' {
      JanFirstGrows(y + 1, y');
      if y + 1 < y' {
        JanFirstGrows(y + 2, y');
      }
    }
  }

  lemma OffsetNear(z: Zone, y: int, st: int)
    requires HasRules(z) && Away(z)
    requires JanFirst(y) * DAY - Margin(z) <= st < JanFirst(y + 1) * DAY + Margin(z)
    ensures InfoAt(z, st).offset == z.offset + (if DstIn(z, y, st) then z.save else 0)
  {
    hide Start, End, FromDays, JanFirst, InfoAt, Margin;
    InfoNear(z, y, st);
  }

  /** Abbreviation, offset and saving of an instant, the saving in minutes rounded up. */
  lemma InfoFields(z: Zone, st: int)
    requires HasRules(z) && Away(z)
    ensures var i, dst := InfoAt(z, st), DstIn(z, FromDays(st / DAY).year, st);
            i.abbrev == (if dst then z.dst else z.std)
            && i.offset == z.offset + (if dst then z.save else 0)
            && 60 * (i.save - 1) < (if dst then z.save else 0) <= 60 * i.save
  {
    hide Start, End, FromDays, Away, InfoAt;
    InfoOfYear(z, st);
  }

  /**
   * The clock changes when it shows the day and time of the rule: standard time at the
   * start, daylight time at the end. From there it shows that time moved by the saving.
   */
  lemma TransitionsOnTheClock(z: Zone, y: int)
    requires HasRules(z) && Away(z) && Start(z, y) != End(z, y)
    ensures var start, rule := Start(z, y), RuleDay(z.start.mode, y) * DAY + z.start.time;
            ToLocal(z, start - 1) + 1 == rule && ToLocal(z, start) == rule + z.save
    ensures var end, rule := End(z, y), RuleDay(z.end.mode, y) * DAY + z.end.time;
            ToLocal(z, end - 1) + 1 == rule && ToLocal(z, end) == rule - z.save
  {
    hide JanFirst, InfoAt, RuleDay, Away;
    AwayAround(z, y);
    assert AwayIn(z, y);
    var s, e := Start(z, y), End(z, y);
    if Margin(z) == 0 {
      OneOfTwoOffsets(z, s);
      OneOfTwoOffsets(z, s - 1);
      OneOfTwoOffsets(z, e);
      OneOfTwoOffsets(z, e - 1);
    } else {
      OffsetNear(z, y, s);
      OffsetNear(z, y, s - 1);
      OffsetNear(z, y, e);
      OffsetNear(z, y, e - 1);
    }
  }

  // ----- Transitions that spill over the new year -----

  /** Start and end alternate, the start first, and neither is a whole year off its own. */
  predicate SpillsIn(z: Zone, y: int)
    requires HasRules(z)
  {
    Start(z, y) <= End(z, y) <= Start(z, y + 1)
    && JanFirst(y - 1) * DAY <= Start(z, y) && End(z, y) < JanFirst(y + 2) * DAY
  }

  lemma SpillYear(z: Zone, y: int, st: int) returns (y0: int)
    requires HasRules(z) && SpillsIn(z, y) && SpillsIn(z, y + 1) && Start(z, y) <= st < Start(z, y + 1)
    ensures y0 == FromDays(st / DAY).year && y - 1 <= y0 <= y + 2 && (st < End(z, y) ==> y0 <= y + 1)
  {
    hide Start, End, FromDays, JanFirst;
    y0 := FromDays(st / DAY).year;
    YearOf(st / DAY, y0);
    if y0 < y - 1 {
      JanFirstGrows(y0 + 1, y - 1);
    } else if y0 > y + 2 {
      JanFirstGrows(y + 3, y0);
    }
    if y0 == y + 2 {
      assert st >= JanFirst(y + 2) * DAY;
    }
  }

  /** The year is adjusted rightly: with the start first, `get_info` finds the period wherever the new year falls in it. */
  lemma InfoAcrossNewYear(z: Zone, y: int, st: int)
    requires HasRules(z) && forall x :: y - 2 <= x <= y + 3 ==> SpillsIn(z, x)
    ensures Start(z, y) <= st < End(z, y) ==> InfoAt(z, st) == Daylight(z, Start(z, y), End(z, y))
    ensures End(z, y) <= st < Start(z, y + 1) ==> InfoAt(z, st) == Standard(z, End(z, y), Start(z, y + 1))
  {
    hide Start, End, FromDays, JanFirst;
    assert SpillsIn(z, y - 2) && SpillsIn(z, y - 1) && SpillsIn(z, y);
    assert SpillsIn(z, y + 1) && SpillsIn(z, y + 2) && SpillsIn(z, y + 3);
    if Start(z, y) <= st < Start(z, y + 1) {
      var y0 := SpillYear(z, y, st);
    }
  }

  /**
   * With the end first it does not: an end that falls before its own year, while the start
   * does not, is passed over, and the instant of that end is given to a period it is not in.
   */
  lemma SouthernSpillFails(z: Zone, y: int)
    requires HasRules(z) && End(z, y) < Start(z, y) < End(z, y + 1) < Start(z, y + 1)
    requires End(z, y - 1) <= End(z, y + 1)
    requires JanFirst(y) * DAY <= End(z, y + 1) < JanFirst(y + 1) * DAY
    ensures InfoAt(z, End(z, y + 1)) == Daylight(z, Start(z, y), End(z, y + 1))
  {
    hide Start, End, FromDays, JanFirst;
    YearOf(End(z, y + 1) / DAY, y);
  }

  lemma OneOfTwoOffsets(z: Zone, st: int)
    requires HasRules(z)
    ensures InfoAt(z, st).offset == z.offset || InfoAt(z, st).offset == z.offset + z.save
  {
    hide Start, End, FromDays;
  }

  // ----- Local times -----

  /** The candidate instants of a local time lie on different sides of a transition. */
  predicate Straddles(z: Zone, transition: int, tp: int) {
    (tp - z.offset < transition) != (tp - (z.offset + z.save) < transition)
  }

  /** They lie on different sides of both transitions of the local time's year. */
  predicate StraddlesBoth(z: Zone, tp: int)
    requires HasRules(z)
  {
    var y := FromDays(tp / DAY).year;
    Straddles(z, Start(z, y), tp) && Straddles(z, End(z, y), tp)
  }

  /**
   * What `get_info` decides for a local time, in terms of the two candidate instants:
   * standard time `tp - offset` and daylight time `tp - offset - save`.
   */
  lemma Candidates(z: Zone, tp: int)
    requires HasRules(z) && Away(z) && !StraddlesBoth(z, tp)
    ensures var i := LocalInfoAt(z, tp);
            var utcs, utcd := tp - z.offset, tp - z.offset - z.save;
            var s, d := ToLocal(z, utcs) == tp, ToLocal(z, utcd) == tp;
            (i.result == Nonexistent <==> !s && !d)
            && (i.result == Ambiguous <==> s && d && utcs != utcd)
            && (i.result == Unique ==> if s then i.first.offset == z.offset else i.first.offset == z.offset + z.save)
  {
    hide Start, End, FromDays, JanFirst, InfoAt;
    var y := FromDays(tp / DAY).year;
    YearOf(tp / DAY, y);
    OffsetNear(z, y, tp - z.offset);
    OffsetNear(z, y, tp - z.offset - z.save);
    assert AwayIn(z, y);
  }

  lemma OnlyCandidates(z: Zone, tp: int, st: int)
    requires HasRules(z) && ToLocal(z, st) == tp
    ensures st == tp - z.offset || st == tp - z.offset - z.save
  {
    OneOfTwoOffsets(z, st);
  }

  /** `get_info` counts the instants that show a local time: none, two, or one. */
  ghost predicate CountsInstants(z: Zone, tp: int) {
    match LocalInfoAt(z, tp).result
    case Nonexistent => forall st :: ToLocal(z, st) != tp
    case Ambiguous => exists st, st' :: st != st' && ToLocal(z, st) == tp && ToLocal(z, st') == tp
    case Unique => exists st :: ToLocal(z, st) == tp && forall st' :: ToLocal(z, st') == tp ==> st' == st
  }

  /**
   * A time is classified by its instants exactly when it does not straddle both transitions
   * of its year: then one transition undoes the other, and one instant shows the time.
   */
  lemma ClassifiedExactly(z: Zone, tp: int)
    requires HasRules(z) && Away(z)
    ensures CountsInstants(z, tp) <==> !StraddlesBoth(z, tp)
  {
    hide ToLocal, LocalInfoAt, InfoAt, Away, StraddlesBoth;
    var utcs, utcd := tp - z.offset, tp - z.offset - z.save;
    forall st | ToLocal(z, st) == tp
      ensures st == utcs || st == utcd
    {
      OnlyCandidates(z, tp, st);
    }
    if StraddlesBoth(z, tp) {
      StraddlingShown(z, tp);
    } else {
      Candidates(z, tp);
    }
  }

  lemma StraddlingShown(z: Zone, tp: int)
    requires HasRules(z) && Away(z) && StraddlesBoth(z, tp)
    ensures LocalInfoAt(z, tp).result == if z.save > 0 then Nonexistent else Ambiguous
    ensures (ToLocal(z, tp - z.offset) == tp) != (ToLocal(z, tp - z.offset - z.save) == tp)
  {
    hide ToLocal, InfoAt, Start, End, FromDays, JanFirst;
    var y := FromDays(tp / DAY).year;
    YearOf(tp / DAY, y);
    assert AwayIn(z, y);
    ShownBy(z, y, tp - z.offset);
    ShownBy(z, y, tp - z.offset - z.save);
  }

  lemma ShownBy(z: Zone, y: int, st: int)
    requires HasRules(z) && Away(z)
    requires JanFirst(y) * DAY - Margin(z) <= st < JanFirst(y + 1) * DAY + Margin(z)
    ensures ToLocal(z, st) == st + z.offset + (if DstIn(z, y, st) then z.save else 0)
  {
    hide Start, End, FromDays, JanFirst, InfoAt, Margin;
    OffsetNear(z, y, st);
  }

  /** Transitions at least the saving apart are never straddled together. */
  lemma GapApart(z: Zone, tp: int)
    requires HasRules(z) && GapIn(z, FromDays(tp / DAY).year)
    ensures !StraddlesBoth(z, tp)
  {
    hide Start, End, FromDays;
  }

  lemma LocalClassification(z: Zone, tp: int)
    requires HasRules(z) && Separated(z)
    ensures CountsInstants(z, tp)
  {
    hide CountsInstants, StraddlesBoth, Away, GapIn, FromDays;
    ClassifiedExactly(z, tp);
    GapApart(z, tp);
  }

  /**
   * The gap is not only sufficient: once a year brings the transitions closer than the
   * saving, the local time that straddles both of them is misreported.
   */
  lemma GapIsNeeded(z: Zone, y: int)
    requires HasRules(z) && Away(z) && !GapIn(z, y)
    ensures var tp := Max(Start(z, y), End(z, y)) + z.offset + (if z.save < 0 then z.save else 0);
            StraddlesBoth(z, tp) && !CountsInstants(z, tp)
  {
    hide CountsInstants, Start, End, FromDays, JanFirst;
    var tp := Max(Start(z, y), End(z, y)) + z.offset + (if z.save < 0 then z.save else 0);
    assert AwayIn(z, y);
    YearOf(tp / DAY, y);
    ClassifiedExactly(z, tp);
  }

  /** So, for transitions away from the new year, all times are classified right exactly when the gaps are. */
  lemma ClassificationExact(z: Zone)
    requires HasRules(z) && Away(z)
    ensures (forall tp :: CountsInstants(z, tp)) <==> (forall y :: GapIn(z, y))
  {
    hide CountsInstants, GapIn, Away;
    if forall y :: GapIn(z, y) {
      forall tp
        ensures CountsInstants(z, tp)
      {
        LocalClassification(z, tp);
      }
    } else {
      var y :| !GapIn(z, y);
      GapIsNeeded(z, y);
    }
  }

  /**
   * `to_sys` undoes `to_local` on every instant whose local time is unique, and only there,
   * however close the transitions are. A time that is shown is reported nonexistent only
   * when it straddles both of them.
   */
  lemma ToSysInverts(z: Zone, st: int)
    requires HasRules(z) && Away(z)
    ensures ToSys(z, ToLocal(z, st)) == Instant(st) <==> LocalInfoAt(z, ToLocal(z, st)).result == Unique
    ensures LocalInfoAt(z, ToLocal(z, st)).result == Nonexistent ==> StraddlesBoth(z, ToLocal(z, st))
  {
    hide ToLocal, LocalInfoAt, InfoAt, Away, StraddlesBoth;
    var tp := ToLocal(z, st);
    OnlyCandidates(z, tp, st);
    if StraddlesBoth(z, tp) {
      StraddlingShown(z, tp);
    } else {
      Candidates(z, tp);
    }
  }

  /** The exceptions of `to_sys` tell how many instants show the time. */
  lemma ToSysThrows(z: Zone, tp: int)
    requires HasRules(z) && Away(z) && !StraddlesBoth(z, tp)
    ensures ToSys(z, tp) == NonexistentLocalTime <==> forall st :: ToLocal(z, st) != tp
    ensures ToSys(z, tp) == AmbiguousLocalTime
            <==> exists st, st' :: st != st' && ToLocal(z, st) == tp && ToLocal(z, st') == tp
  {
    hide ToLocal, LocalInfoAt, InfoAt, Away, StraddlesBoth;
    Candidates(z, tp);
    var utcs, utcd := tp - z.offset, tp - z.offset - z.save;
    forall st | ToLocal(z, st) == tp
      ensures st == utcs || st == utcd
    {
      OnlyCandidates(z, tp, st);
    }
  }

  /** Without rules every local time is unique and shown by one instant, whichever is chosen. */
  lemma ConstantZone(z: Zone, st: int, latest: bool)
    requires !HasRules(z)
    ensures LocalInfoAt(z, ToLocal(z, st)) == LocalInfo(Unique, InfoAt(z, st), None)
    ensures ToSys(z, ToLocal(z, st)) == Instant(st) && ToSysChoose(z, ToLocal(z, st), latest) == st
    ensures var i := InfoAt(z, st);
            if z.std != "" then i.offset == z.offset && i.abbrev == z.std && i.save == 0
            else i.offset == z.offset + z.save && i.abbrev == z.dst && 60 * (i.save - 1) < z.save <= 60 * i.save
  {
    hide JanFirst, ToDays;
  }

  /** Its one period runs from the first second of year -32767 to the last of year 32767, exclusive. */
  lemma ConstantPeriod(z: Zone, st: int)
    requires !HasRules(z)
    ensures var i := InfoAt(z, st);
            FromDays(i.begin / DAY) == Date(-32767, 1, 1) && i.begin % DAY == 0
            && FromDays(i.end / DAY) == Date(32767, 12, 31) && i.end % DAY == DAY - 1
  {
    hide ToDays, FromDays;
    ToDaysInverts(Date(-32767, 1, 1));
    ToDaysInverts(Date(32767, 12, 31));
  }

  /** An ambiguous time is resolved to its earlier or its later instant, as asked, unless it straddles both transitions. */
  lemma ChooseOrdersAmbiguous(z: Zone, tp: int)
    requires HasRules(z) && Away(z) && LocalInfoAt(z, tp).result == Ambiguous
    ensures var early, late := ToSysChoose(z, tp, false), ToSysChoose(z, tp, true);
            early < late && ToLocal(z, early) == tp == ToLocal(z, late) <==> !StraddlesBoth(z, tp)
  {
    hide ToLocal, InfoAt, Away, Start, End, FromDays, StraddlesBoth;
    AmbiguousCandidates(z, tp);
    if StraddlesBoth(z, tp) {
      StraddlingShown(z, tp);
    } else {
      Candidates(z, tp);
    }
  }

  /** A unique time is resolved to the instant that shows it, whichever is asked for. */
  lemma ChooseUnique(z: Zone, tp: int, latest: bool)
    requires HasRules(z) && Away(z) && LocalInfoAt(z, tp).result == Unique
    ensures ToLocal(z, ToSysChoose(z, tp, latest)) == tp
    ensures Instant(ToSysChoose(z, tp, latest)) == ToSys(z, tp)
  {
    hide ToLocal, LocalInfoAt, Away;
    UniquePeriod(z, tp);
  }

  lemma AmbiguousCandidates(z: Zone, tp: int)
    requires HasRules(z) && LocalInfoAt(z, tp).result == Ambiguous
    ensures ToSysChoose(z, tp, false) < ToSysChoose(z, tp, true)
    ensures {ToSysChoose(z, tp, false), ToSysChoose(z, tp, true)} == {tp - z.offset, tp - z.offset - z.save}
  {
    hide InfoAt, Start, End, FromDays;
  }

  /** A nonexistent time is resolved to the instant at which the clock jumps over it, unless its transitions coincide. */
  lemma ChooseJumpsNonexistent(z: Zone, tp: int, latest: bool)
    requires HasRules(z) && Away(z) && LocalInfoAt(z, tp).result == Nonexistent
    ensures var st, y := ToSysChoose(z, tp, latest), FromDays(tp / DAY).year;
            ToLocal(z, st - 1) < tp < ToLocal(z, st) <==> Start(z, y) != End(z, y)
  {
    hide InfoAt, Start, End, FromDays, JanFirst;
    var y := FromDays(tp / DAY).year;
    YearOf(tp / DAY, y);
    assert AwayIn(z, y);
    var st := ToSysChoose(z, tp, latest);
    OffsetNear(z, y, st);
    OffsetNear(z, y, st - 1);
  }

  // ----- The periods get_info reports -----

  lemma AwayAround(z: Zone, y: int)
    requires HasRules(z) && Away(z)
    ensures AwayIn(z, y - 1) && AwayIn(z, y) && AwayIn(z, y + 1)
    ensures Northern(z, y - 1) == Northern(z, y) == Northern(z, y + 1)
  {
  }

  /** An instant with its civil year, and what is known of that year. */
  ghost predicate Placed(z: Zone, y: int, st: int)
    requires HasRules(z)
  {
    JanFirst(y) * DAY <= st < JanFirst(y + 1) * DAY
    && AwayIn(z, y - 1) && AwayIn(z, y) && AwayIn(z, y + 1)
    && Northern(z, y - 1) == Northern(z, y) == Northern(z, y + 1)
  }

  lemma Place(z: Zone, st: int) returns (y: int)
    requires HasRules(z) && Away(z)
    ensures Placed(z, y, st) && InfoAt(z, st) == InfoInYear(z, y, st)
  {
    hide Start, End, FromDays, JanFirst, InfoAt, AwayIn, Northern;
    y := FromDays(st / DAY).year;
    YearOf(st / DAY, y);
    InfoOfYear(z, st);
    AwayAround(z, y);
  }

  lemma PeriodBounds(z: Zone, y: int, st: int)
    requires HasRules(z) && Placed(z, y, st)
    ensures var i := InfoInYear(z, y, st);
            i.begin <= st < i.end && JanFirst(y - 1) * DAY <= i.begin && i.end <= JanFirst(y + 2) * DAY
  {
    hide Start, End, JanFirst, Margin;
  }

  lemma SameYear(z: Zone, y: int, st: int, st': int)
    requires HasRules(z) && Placed(z, y, st) && Placed(z, y, st')
    ensures var i := InfoInYear(z, y, st); i.begin <= st' < i.end ==> InfoInYear(z, y, st') == i
  {
    hide Start, End, JanFirst, Margin;
  }

  lemma NextYear(z: Zone, y: int, st: int, st': int)
    requires HasRules(z) && Placed(z, y, st) && Placed(z, y + 1, st')
    ensures var i := InfoInYear(z, y, st); i.begin <= st' < i.end ==> InfoInYear(z, y + 1, st') == i
    ensures var i := InfoInYear(z, y + 1, st'); i.begin <= st < i.end ==> InfoInYear(z, y, st) == i
  {
    hide Start, End, JanFirst, Margin;
  }

  /**
   * The period reported for an instant contains it, and every instant of the period
   * reports the same: the periods partition time.
   */
  lemma PeriodsPartition(z: Zone, st: int, st': int)
    requires HasRules(z) && Away(z)
    ensures var i := InfoAt(z, st); i.begin <= st < i.end
    ensures var i := InfoAt(z, st); i.begin <= st' < i.end ==> InfoAt(z, st') == i
  {
    hide Away, JanFirst, InfoAt, InfoInYear, AwayIn, Northern;
    var y := Place(z, st);
    var y' := Place(z, st');
    PeriodBounds(z, y, st);
    if y' == y {
      SameYear(z, y, st, st');
    } else if y' == y + 1 {
      NextYear(z, y, st, st');
    } else if y == y' + 1 {
      NextYear(z, y', st', st);
    } else if y' < y {
      JanFirstGrows(y' + 1, y - 1);
    } else {
      JanFirstGrows(y + 2, y');
    }
  }

  /** No transition of any year lies strictly between two instants. */
  ghost predicate Quiet(z: Zone, a: int, b: int)
    requires HasRules(z)
  {
    forall y :: !(a < Start(z, y) < b) && !(a < End(z, y) < b)
  }

  lemma QuietPeriod(z: Zone, y: int, st: int, y': int)
    requires HasRules(z) && Away(z) && Placed(z, y, st)
    ensures var i := InfoInYear(z, y, st);
            !(i.begin < Start(z, y') < i.end) && !(i.begin < End(z, y') < i.end)
  {
    hide Start, End, JanFirst, Margin;
    assert AwayIn(z, y');
    if y' < y - 1 {
      JanFirstGrows(y' + 1, y - 1);
    } else if y + 1 < y' {
      JanFirstGrows(y + 2, y');
    }
  }

  /** A period runs from one transition to the next; it is daylight time when a start opened it. */
  lemma PeriodMeaning(z: Zone, st: int)
    requires HasRules(z) && Away(z)
    ensures var i := InfoAt(z, st);
            Quiet(z, i.begin, i.end)
            && ((exists y :: i.begin == Start(z, y) && i == Daylight(z, i.begin, i.end))
                || (exists y :: i.begin == End(z, y) && i == Standard(z, i.begin, i.end)))
  {
    hide Start, End, Away, JanFirst, InfoAt, AwayIn, Northern, FromDays;
    var y := Place(z, st);
    forall y'
      ensures var i := InfoAt(z, st);
              !(i.begin < Start(z, y') < i.end) && !(i.begin < End(z, y') < i.end)
    {
      QuietPeriod(z, y, st, y');
    }
  }

  /** For a time that is not unique, the two periods are those before and after the transition it falls on, unless the year's two coincide. */
  lemma LocalInfoPeriods(z: Zone, tp: int)
    requires HasRules(z) && Away(z) && LocalInfoAt(z, tp).result != Unique
    ensures var i, y := LocalInfoAt(z, tp), FromDays(tp / DAY).year;
            i.second.Some? && i.first.end == i.second.value.begin && i.first == InfoAt(z, i.first.end - 1)
            && (i.second.value == InfoAt(z, i.first.end) <==> Start(z, y) != End(z, y))
  {
    hide InfoAt, Start, End, FromDays, JanFirst, Away;
    var y := FromDays(tp / DAY).year;
    YearOf(tp / DAY, y);
    AwayAround(z, y);
    var t := LocalInfoAt(z, tp).first.end;
    InfoNear(z, y, t);
    InfoNear(z, y, t - 1);
  }

  /** For a unique time, the period is the one of the instant that shows it. */
  lemma UniquePeriod(z: Zone, tp: int)
    requires HasRules(z) && Away(z) && LocalInfoAt(z, tp).result == Unique
    ensures var i := LocalInfoAt(z, tp).first;
            i == InfoAt(z, tp - i.offset) && ToLocal(z, tp - i.offset) == tp
    ensures LocalInfoAt(z, tp).second == None
  {
    hide InfoAt, Start, End, FromDays, JanFirst, Away;
    var y := FromDays(tp / DAY).year;
    YearOf(tp / DAY, y);
    InfoNear(z, y, tp - z.offset);
    InfoNear(z, y, tp - z.offset - z.save);
    OneOfTwoOffsets(z, tp - z.offset);
  }

  // ----- Zones that satisfy the hypothesis -----

  /** The range of offsets the parser can produce. */
  predicate OffsetsInRange(z: Zone) {
    -93600 <= z.offset <= 93600 && -93600 <= z.offset + z.save <= 93600
  }

  /** The rules as written, in local time, keep three days from the new year and from each other. */
  predicate ThreeDaysIn(z: Zone, y: int)
    requires HasRules(z)
  {
    var s, e := RuleAt(z.start, y), RuleAt(z.end, y);
    (JanFirst(y) + 3) * DAY <= s <= (JanFirst(y + 1) - 3) * DAY
    && (JanFirst(y) + 3) * DAY <= e <= (JanFirst(y + 1) - 3) * DAY
    && (if s < e then e - s else s - e) >= 3 * DAY
  }

  ghost predicate ThreeDaysApart(z: Zone)
    requires HasRules(z)
  {
    forall y :: ThreeDaysIn(z, y) && (RuleAt(z.start, y) < RuleAt(z.end, y)) == (RuleAt(z.start, 0) < RuleAt(z.end, 0))
  }

  /** Whatever the saving, such rules keep the transitions away from the new year. */
  lemma ThreeDaysAway(z: Zone)
    requires HasRules(z) && OffsetsInRange(z) && ThreeDaysApart(z)
    ensures Away(z)
  {
    hide RuleAt, JanFirst;
    assert ThreeDaysIn(z, 0);
    forall y
      ensures AwayIn(z, y) && Northern(z, y) == Northern(z, 0)
    {
      assert ThreeDaysIn(z, y);
    }
  }

  /** Three days suffice as long as the saving is at most a day and a half. */
  lemma ThreeDaysSuffice(z: Zone)
    requires HasRules(z) && OffsetsInRange(z) && ThreeDaysApart(z)
    requires -129600 <= z.save <= 129600
    ensures Separated(z)
  {
    hide RuleAt, JanFirst, Away;
    ThreeDaysAway(z);
    forall y
      ensures GapIn(z, y)
    {
      assert ThreeDaysIn(z, y);
    }
  }

  /** Beyond that, the gaps between the transitions decide. */
  lemma ThreeDaysExact(z: Zone)
    requires HasRules(z) && OffsetsInRange(z) && ThreeDaysApart(z)
    ensures (forall tp :: CountsInstants(z, tp)) <==> (forall y :: GapIn(z, y))
  {
    hide CountsInstants, GapIn, Away, ThreeDaysApart;
    ThreeDaysAway(z);
    ClassificationExact(z);
  }

  /** A zone of two days' saving whose rules are three days apart, and its offsets are in range. */
  const WIDE := Zone("AAA", "BBB", -86400, 172800, Rule(J(100), 0), Rule(J(103), 0))

  lemma WideTransitions(y: int)
    ensures var leap := if IsLeap(y) then 1 else 0;
            Start(WIDE, y) == (JanFirst(y) + 100 + leap) * DAY
            && End(WIDE, y) == (JanFirst(y) + 101 + leap) * DAY
    ensures JanFirst(y) + 365 <= JanFirst(y + 1) <= JanFirst(y) + 366
  {
    hide ToDays, FromDays, IsLeap, DaysBefore;
    JanFirstStep(y);
    MonthDays(y, 1, 0);
  }

  /**
   * Three days do not suffice for every saving the parser accepts: in this zone the two
   * transitions are one day apart, and each year a local time that one instant does show
   * is reported as nonexistent.
   */
  lemma ThreeDaysFail(y: int)
    ensures OffsetsInRange(WIDE) && ThreeDaysIn(WIDE, y) && RuleAt(WIDE.start, y) < RuleAt(WIDE.end, y)
    ensures ToLocal(WIDE, End(WIDE, y)) == Start(WIDE, y)
    ensures LocalInfoAt(WIDE, Start(WIDE, y)).result == Nonexistent
  {
    hide RuleAt, FromDays, JanFirst, IsLeap;
    WideTransitions(y - 1);
    WideTransitions(y);
    WideTransitions(y + 1);
    YearOf(End(WIDE, y) / DAY, y);
    YearOf(Start(WIDE, y) / DAY, y);
  }

  // ----- Month rules, such as those of the United States and the European Union -----

  predicate MonthRule(r: Rule) {
    r.mode.M? && 2 <= r.mode.month <= 11 && 1 <= r.mode.week <= 5 && 0 <= r.time <= 90000
  }

  /** A month rule falls on a day of its month. */
  lemma MonthRuleDay(r: Rule, y: int)
    requires MonthRule(r)
    ensures ToDays(Date(y, r.mode.month, 1)) <= RuleDay(r.mode, y) < ToDays(Date(y, r.mode.month + 1, 1))
  {
    hide ToDays, FromDays, IsLeap, WeekdayOf, Minus;
    var M(m, n, wd) := r.mode;
    NextDayCounts(Date(y, m, LastDay(y, m)));
    MonthDays(y, m, LastDay(y, m));
    if n == 5 {
      LastBack(ToDays(Date(y, m, LastDay(y, m))), wd);
    } else {
      FirstFrom(ToDays(Date(y, m, 1)), wd);
    }
  }

  /**
   * Any zone with month rules two or more months apart, away from December and January,
   * satisfies the hypothesis; so the theorems above hold for it outright.
   */
  lemma MonthRulesSuffice(z: Zone)
    requires HasRules(z) && OffsetsInRange(z) && -129600 <= z.save <= 129600
    requires MonthRule(z.start) && MonthRule(z.end)
    requires z.start.mode.month + 2 <= z.end.mode.month || z.end.mode.month + 2 <= z.start.mode.month
    ensures Separated(z)
  {
    hide RuleAt, ToDays, JanFirst;
    forall y
      ensures ThreeDaysIn(z, y)
      ensures RuleAt(z.start, y) < RuleAt(z.end, y) <==> z.start.mode.month < z.end.mode.month
    {
      MonthRuleOrder(z.start, z.end, y);
      MonthRuleOrder(z.end, z.start, y);
    }
    ThreeDaysSuffice(z);
  }

  lemma MonthRuleOrder(r: Rule, r': Rule, y: int)
    requires MonthRule(r) && MonthRule(r')
    ensures (JanFirst(y) + 3) * DAY <= RuleAt(r, y) <= (JanFirst(y + 1) - 3) * DAY
    ensures r.mode.month + 2 <= r'.mode.month ==> RuleAt(r, y) + 3 * DAY <= RuleAt(r', y)
  {
    hide ToDays, JanFirst, IsLeap, RuleDay;
    var m, m' := r.mode.month, r'.mode.month;
    MonthRuleDay(r, y);
    MonthRuleDay(r', y);
    WithinYear(Date(y, m, 1));
    WithinYear(Date(y, m + 1, 1));
    WithinYear(Date(y, m', 1));
    MonthStarts(y, m, m');
  }

  lemma MonthStarts(y: int, m: nat, m': nat)
    requires 2 <= m <= 11 && 2 <= m' <= 11
    ensures YearDay(Date(y, m, 1)) >= 31 && YearDay(Date(y, m + 1, 1)) <= 335
    ensures JanFirst(y + 1) - JanFirst(y) >= 365
    ensures m + 2 <= m' ==> YearDay(Date(y, m + 1, 1)) + 28 <= YearDay(Date(y, m', 1))
  {
    hide ToDays, JanFirst, IsLeap, DaysBefore;
    JanFirstStep(y);
  }
}
