/** `TimeSpan` of Date.cpp: the component accessors, `Set`, and the text form. */
module TimeSpans {
  import opened MachineInt
  import opened Text

  const DAY := 86400
  const HOUR := 3600

  // ----- Components; C++ division truncates, and the casts keep 32 bits -----

  function Days(total: int): int {
    ToInt32(TruncDiv(total, DAY))
  }

  function Hours(total: int): int {
    ToInt32(TruncMod(TruncDiv(total, HOUR), 24))
  }

  function Minutes(total: int): int {
    ToInt32(TruncMod(TruncDiv(total, 60), 60))
  }

  function Seconds(total: int): int {
    ToInt32(TruncMod(total, 60))
  }

  predicate DaysFit(total: int) {
    -0x8000_0000 <= TruncDiv(total, DAY) < 0x8000_0000
  }

  function Total(days: int, hours: int, minutes: int, seconds: int): int {
    days * DAY + hours * HOUR + minutes * 60 + seconds
  }

  /** Truncating parts of `n`: the quotients nest and the remainders add up. */
  lemma Parts(n: nat)
    ensures n / 60 / 60 / 24 == n / DAY && n / 60 / 60 == n / HOUR
    ensures n == Total(n / DAY, n / HOUR % 24, n / 60 % 60, n % 60)
  {
  }

  lemma SmallCast(x: int)
    ensures ToInt32(x) == x <==> -0x8000_0000 <= x < 0x8000_0000
  {
  }

  /** The parts carry the sign of the whole and rebuild it, when the day count fits an int. */
  lemma Components(total: int)
    ensures Hours(total) == TruncMod(TruncDiv(total, HOUR), 24) && -24 < Hours(total) < 24
    ensures Minutes(total) == TruncMod(TruncDiv(total, 60), 60) && -60 < Minutes(total) < 60
    ensures Seconds(total) == TruncMod(total, 60) && -60 < Seconds(total) < 60
    ensures total == Total(TruncDiv(total, DAY), Hours(total), Minutes(total), Seconds(total))
    ensures total >= 0 ==> Hours(total) >= 0 && Minutes(total) >= 0 && Seconds(total) >= 0
  {
    hide ToInt32;
    var n := if total >= 0 then total else -total;
    Parts(n);
    SmallCast(TruncMod(TruncDiv(total, HOUR), 24));
    SmallCast(TruncMod(TruncDiv(total, 60), 60));
    SmallCast(TruncMod(total, 60));
  }

  /** Taking a span apart and setting it again is the identity exactly when the days fit. */
  lemma SetRebuilds(total: int)
    ensures Total(Days(total), Hours(total), Minutes(total), Seconds(total)) == total <==> DaysFit(total)
  {
    hide Hours, Minutes, Seconds, ToInt32, TruncDiv, TruncMod;
    Components(total);
    SmallCast(TruncDiv(total, DAY));
  }

  // ----- Text -----

  function Two(n: int): string {
    LeftPad(Decimal(n), 2, '0')
  }

  /** What `ToString(slim)` returns, appended piece by piece. */
  function TextOf(total: int, slim: bool): string {
    var sign := if total < 0 then "" + "-" else "";
    if slim && -36000 < total < 36000 then
      (if total <= -HOUR || total >= HOUR then sign + Decimal(Hours(total)) + ":" + Two(Minutes(total))
       else sign + Decimal(Minutes(total)))
      + ":" + Two(Seconds(total))
    else
      (if total <= -DAY || total >= DAY then sign + Decimal(Days(total)) + "." else sign)
      + Two(Hours(total)) + ":" + Two(Minutes(total)) + ":" + Two(Seconds(total))
  }

  /** The same text after the sign, grouped the way `TryParse` takes it apart. */
  function Body(total: int, slim: bool): string {
    if slim && -36000 < total < 36000 then
      if total <= -HOUR || total >= HOUR then
        Decimal(Hours(total)) + ":" + (Two(Minutes(total)) + ":" + Two(Seconds(total)))
      else
        Decimal(Minutes(total)) + ":" + Two(Seconds(total))
    else
      (if total <= -DAY || total >= DAY then Decimal(Days(total)) + "." else "")
      + Two(Hours(total)) + ":" + (Two(Minutes(total)) + ":" + Two(Seconds(total)))
  }

  lemma Regroup(sign: string, a: string, x: string, b: string, y: string, c: string)
    ensures sign + a + x + b == sign + (a + x + b)
    ensures sign + a + x + b + y + c == sign + (a + x + (b + y + c))
  {
  }

  lemma SignAndBody(total: int, slim: bool)
    ensures TextOf(total, slim) == (if total < 0 then "-" else "") + Body(total, slim)
  {
    hide Hours, Minutes, Seconds, Days, Decimal, Two;
    var sign := if total < 0 then "-" else "";
    var h, m, s := Hours(total), Minutes(total), Seconds(total);
    assert "" + "-" == "-";
    if slim && -36000 < total < 36000 {
      if total <= -HOUR || total >= HOUR {
        Regroup(sign, Decimal(h), ":", Two(m), ":", Two(s));
      } else {
        Regroup(sign, Decimal(m), ":", Two(s), "", "");
      }
    } else if total <= -DAY || total >= DAY {
      var head := Decimal(Days(total)) + "." + Two(h);
      Regroup(sign, Decimal(Days(total)), ".", Two(h), "", "");
      Regroup(sign, head, ":", Two(m), ":", Two(s));
    } else {
      assert "" + Two(h) == Two(h);
      Regroup(sign, Two(h), ":", Two(m), ":", Two(s));
    }
  }

  /** What `TryParse` computes; None where it returns false. */
  function Parse(text: string): Option<int> {
    if text == "" then None
    else if text[0] == '-' then
      match ParseParts(Split(text[1..], ':')) {
        case None => None
        case Some(total) => Some(-total)
      }
    else ParseParts(Split(text, ':'))
  }

  function ParseParts(res: seq<string>): Option<int>
    requires |res| >= 1
  {
    if |res| < 2 || |res| > 3 then None
    else
      var index := Find(res[0], '.');
      if index == |res[0]| then ParseClock(res[0], res[1..], 0)
      else
        match Stoll(res[0][..index]) {
          case None => None
          case Some(days) => ParseClock(res[0][index + 1..], res[1..], days * DAY)
        }
  }

  function ParseClock(hour: string, rest: seq<string>, base: int): Option<int>
    requires 1 <= |rest| <= 2
  {
    var first := Stoll(hour);
    var second := Stoll(rest[0]);
    if first.None? || second.None? then None
    else if |rest| == 1 then Some(base + first.value * 60 + second.value)
    else
      var third := Stoll(rest[1]);
      if third.None? then None
      else Some(base + first.value * HOUR + second.value * 60 + third.value)
  }

  // ----- Reading back what was printed -----

  predicate Plain(s: string) {
    ':' !in s && '.' !in s
  }

  lemma TwoReadsBack(n: int)
    requires -0x1_0000_0000 < n < 0x1_0000_0000
    ensures Plain(Decimal(n)) && Plain(Two(n))
    ensures Stoll(Decimal(n)) == Some(n) && Stoll(Two(n)) == Some(n)
    ensures Decimal(n) != "" && Two(n) != ""
    ensures n >= 0 ==> Decimal(n)[0] != '-' && Two(n)[0] != '-'
  {
    hide Stoll;
    StollOfDecimal(n);
  }

  lemma PlainSplit(a: string, b: string)
    requires Plain(a) && Plain(b)
    ensures Split(a + ":" + b, ':') == [a, b]
  {
    SplitJoin(a, ':', b);
    FindNone(b, ':');
  }

  lemma PlainSplit3(a: string, b: string, c: string)
    requires ':' !in a && Plain(b) && Plain(c)
    ensures Split(a + ":" + (b + ":" + c), ':') == [a, b, c]
  {
    SplitJoin(a, ':', b + ":" + c);
    PlainSplit(b, c);
  }

  lemma ShortClock(m: int, s: int)
    requires -60 < m < 60 && -60 < s < 60
    ensures ParseParts(Split(Decimal(m) + ":" + Two(s), ':')) == Some(m * 60 + s)
  {
    hide Stoll, Split, Decimal, Two;
    TwoReadsBack(m);
    TwoReadsBack(s);
    PlainSplit(Decimal(m), Two(s));
    FindNone(Decimal(m), '.');
  }

  lemma LongClock(head: string, h: int, m: int, s: int)
    requires Plain(head) && Stoll(head) == Some(h) && -60 < m < 60 && -60 < s < 60
    ensures ParseParts(Split(head + ":" + (Two(m) + ":" + Two(s)), ':')) == Some(h * HOUR + m * 60 + s)
  {
    hide Stoll, Split, Decimal, Two;
    TwoReadsBack(m);
    TwoReadsBack(s);
    PlainSplit3(head, Two(m), Two(s));
    FindNone(head, '.');
  }

  lemma DayClock(d: int, h: int, m: int, s: int)
    requires -0x8000_0000 <= d <= 0x8000_0000 && -24 < h < 24 && -60 < m < 60 && -60 < s < 60
    ensures var head := Decimal(d) + "." + Two(h);
            ParseParts(Split(head + ":" + (Two(m) + ":" + Two(s)), ':')) == Some(Total(d, h, m, s))
  {
    hide Stoll, Split, Decimal, Two;
    TwoReadsBack(d);
    TwoReadsBack(h);
    TwoReadsBack(m);
    TwoReadsBack(s);
    var head := Decimal(d) + "." + Two(h);
    PlainSplit3(head, Two(m), Two(s));
    FindAfter(Decimal(d), '.', Two(h));
    assert head[..|Decimal(d)|] == Decimal(d);
    assert head[|Decimal(d)| + 1..] == Two(h);
  }

  lemma BodyReadsBack(total: int, slim: bool)
    requires DaysFit(total)
    ensures ParseParts(Split(Body(total, slim), ':')) == Some(total)
  {
    hide ParseParts, Stoll, Split, Decimal, Two, Hours, Minutes, Seconds, ToInt32, TruncMod;
    var d, h, m, s := Days(total), Hours(total), Minutes(total), Seconds(total);
    Components(total);
    SmallCast(TruncDiv(total, DAY));
    UnderOneDay(total);
    TwoReadsBack(h);
    hide TruncDiv;
    if slim && -36000 < total < 36000 {
      UnderTenHours(total);
      if total <= -HOUR || total >= HOUR {
        LongClock(Decimal(h), h, m, s);
      } else {
        ShortClock(m, s);
      }
    } else if total <= -DAY || total >= DAY {
      DayClock(d, h, m, s);
    } else {
      assert "" + Two(h) == Two(h);
      LongClock(Two(h), h, m, s);
    }
  }

  lemma BodyStart(total: int, slim: bool)
    requires DaysFit(total) && total >= 0
    ensures Body(total, slim) != "" && Body(total, slim)[0] != '-'
  {
    hide Stoll, Decimal, Two, Hours, Minutes, Seconds;
    Components(total);
    SmallCast(TruncDiv(total, DAY));
    TwoReadsBack(Days(total));
    TwoReadsBack(Hours(total));
    TwoReadsBack(Minutes(total));
  }

  lemma UnderOneDay(total: int)
    ensures -DAY < total < DAY ==> TruncDiv(total, DAY) == 0
  {
  }

  lemma UnderTenHours(total: int)
    requires -36000 < total < 36000
    ensures TruncDiv(total, DAY) == 0
    ensures !(total <= -HOUR || total >= HOUR) ==> Hours(total) == 0
  {
    hide ToInt32;
    SmallCast(0);
    var n := if total >= 0 then total else -total;
    assert n / DAY == 0;
    if n < HOUR {
      assert n / HOUR == 0;
    }
  }

  /**
   * Printing then parsing gives the absolute value: a negative span prints its sign once
   * for the whole and again on its parts, and the two cancel.
   */
  lemma TextReadsBack(total: int, slim: bool)
    requires DaysFit(total)
    ensures Parse(TextOf(total, slim)) == Some(if total < 0 then -total else total)
  {
    hide TextOf, Body, ParseParts, Split;
    BodyReadsBack(total, slim);
    SignAndBody(total, slim);
    if total >= 0 {
      BodyStart(total, slim);
    }
    var text := TextOf(total, slim);
    if total < 0 {
      assert text[1..] == Body(total, slim);
    } else {
      assert text == Body(total, slim);
    }
  }

  /** What is read back when the day count does not fit an `int` and has wrapped to `d`. */
  function WrappedTotal(total: int): int {
    var d, h, m, s := Days(total), Hours(total), Minutes(total), Seconds(total);
    if total < 0 then -Total(d, h, m, s) else if d < 0 then -Total(-d, h, m, s) else Total(d, h, m, s)
  }

  lemma WrappedElsewhere(total: int)
    requires !DaysFit(total)
    ensures WrappedTotal(total) != total
  {
    hide Hours, Minutes, Seconds, Days, TruncDiv, TruncMod;
    Components(total);
    WrappedDays(total);
  }

  lemma WrappedBody(total: int, slim: bool)
    requires !DaysFit(total)
    ensures var d, h, m, s := Days(total), Hours(total), Minutes(total), Seconds(total);
            var b := Body(total, slim);
            ParseParts(Split(b, ':')) == Some(Total(d, h, m, s))
            && b != "" && (d < 0 ==> b[0] == '-' && ParseParts(Split(b[1..], ':')) == Some(Total(-d, h, m, s)))
            && (d >= 0 ==> b[0] != '-')
  {
    hide Body, DaysFit, ParseParts, Split, Stoll, Decimal, Two, Hours, Minutes, Seconds, Days, Total, TruncMod, TruncDiv;
    var d, h, m, s := Days(total), Hours(total), Minutes(total), Seconds(total);
    Components(total);
    WrappedDays(total);
    LongBody(total, slim);
    TwoReadsBack(d);
    DayClock(d, h, m, s);
    if d < 0 {
      DayClock(-d, h, m, s);
      NegativeDecimal(d);
      assert Body(total, slim)[1..] == Decimal(-d) + "." + Two(h) + ":" + (Two(m) + ":" + Two(s));
    }
  }

  lemma WrappedReadsBack(total: int, slim: bool)
    requires !DaysFit(total)
    ensures Parse(TextOf(total, slim)) == Some(WrappedTotal(total))
  {
    hide TextOf, Body, DaysFit, ParseParts, Split, Hours, Minutes, Seconds, Days, Total;
    WrappedBody(total, slim);
    SignAndBody(total, slim);
    if total < 0 {
      assert TextOf(total, slim)[1..] == Body(total, slim);
    } else {
      assert TextOf(total, slim) == Body(total, slim);
    }
  }

  lemma LongBody(total: int, slim: bool)
    requires !DaysFit(total)
    ensures Body(total, slim)
            == Decimal(Days(total)) + "." + Two(Hours(total)) + ":" + (Two(Minutes(total)) + ":" + Two(Seconds(total)))
  {
    hide Decimal, Two, Hours, Minutes, Seconds, Days;
  }

  lemma NegativeDecimal(n: int)
    requires n < 0
    ensures Decimal(n) == "-" + Decimal(-n)
  {
  }

  lemma WrappedDays(total: int)
    requires !DaysFit(total)
    ensures -0x8000_0000 <= Days(total) < 0x8000_0000 && Days(total) != TruncDiv(total, DAY)
    ensures TruncDiv(total, DAY) < -0x8000_0000 || TruncDiv(total, DAY) >= 0x8000_0000
    ensures total >= 0 <==> TruncDiv(total, DAY) >= 0x8000_0000
  {
    hide TruncDiv;
    SmallCast(TruncDiv(total, DAY));
    TruncSign(total);
  }

  lemma TruncSign(total: int)
    ensures total >= 0 ==> TruncDiv(total, DAY) >= 0
    ensures total < 0 ==> TruncDiv(total, DAY) <= 0
  {
  }

  /** So the text form is faithful on exactly the spans that are not negative and whose days fit. */
  lemma TextRoundTrip(total: int, slim: bool)
    ensures Parse(TextOf(total, slim)) == Some(total) <==> total >= 0 && DaysFit(total)
  {
    hide Parse, TextOf, DaysFit, WrappedTotal;
    if DaysFit(total) {
      TextReadsBack(total, slim);
    } else {
      WrappedReadsBack(total, slim);
      WrappedElsewhere(total);
    }
  }

  // ----- Texts of every form, printed or not -----

  /** Weighted sum of two or three parts; None when one of them is no number. */
  function Sum(base: Option<int>, h: Option<int>, m: Option<int>, s: Option<int>): Option<int> {
    if base.None? || h.None? || m.None? || s.None? then None
    else Some(base.value + h.value * HOUR + m.value * 60 + s.value)
  }

  /** `d` days, when there is a point; `days` is the text before it. */
  function DayPart(days: string): Option<int> {
    match Stoll(days) case Some(d) => Some(d * DAY) case None => None
  }

  lemma ParsePartsOf(parts: seq<string>)
    requires 2 <= |parts| <= 3 && '.' !in parts[0]
    ensures ParseParts(parts)
            == if |parts| == 2 then Sum(Some(0), Some(0), Stoll(parts[0]), Stoll(parts[1]))
               else Sum(Some(0), Stoll(parts[0]), Stoll(parts[1]), Stoll(parts[2]))
  {
    hide Stoll;
    FindNone(parts[0], '.');
  }

  lemma ParsePartsWithDays(parts: seq<string>, days: string, head: string)
    requires 2 <= |parts| <= 3 && '.' !in days && parts[0] == days + "." + head
    ensures ParseParts(parts)
            == if |parts| == 2 then Sum(DayPart(days), Some(0), Stoll(head), Stoll(parts[1]))
               else Sum(DayPart(days), Stoll(head), Stoll(parts[1]), Stoll(parts[2]))
  {
    hide Stoll;
    FindAfter(days, '.', head);
    assert parts[0][..|days|] == days && parts[0][|days| + 1..] == head;
  }

  /** A leading minus negates what is read from the rest. */
  lemma ParseNegative(body: string)
    ensures Parse("-" + body) == match ParseParts(Split(body, ':')) case Some(v) => Some(-v) case None => None
    ensures body != "" && body[0] != '-' ==> Parse(body) == ParseParts(Split(body, ':'))
    ensures Parse("") == None
  {
    hide ParseParts, Split;
    assert ("-" + body)[1..] == body;
  }

  /** `m:s`, where both parts are numbers as `stoll` reads them, whatever their size. */
  lemma ParseTwo(a: string, b: string)
    requires Plain(a) && ':' !in b
    ensures ParseParts(Split(a + ":" + b, ':')) == Sum(Some(0), Some(0), Stoll(a), Stoll(b))
  {
    hide Stoll, Split;
    SplitJoin(a, ':', b);
    SplitOnce(b, ':');
    ParsePartsOf([a, b]);
  }

  /** `h:m:s`. */
  lemma ParseThree(a: string, b: string, c: string)
    requires Plain(a) && ':' !in b && ':' !in c
    ensures ParseParts(Split(a + ":" + (b + ":" + c), ':')) == Sum(Some(0), Stoll(a), Stoll(b), Stoll(c))
  {
    hide Stoll, Split;
    SplitThree(a, b, c);
    ParsePartsOf([a, b, c]);
  }

  lemma SplitThree(a: string, b: string, c: string)
    requires ':' !in a && ':' !in b && ':' !in c
    ensures Split(a + ":" + (b + ":" + c), ':') == [a, b, c]
  {
    SplitJoin(a, ':', b + ":" + c);
    SplitJoin(b, ':', c);
    SplitOnce(c, ':');
  }

  /** `d.h:m:s`, and `d.m:s`, which only the parser knows. */
  lemma ParseWithDays(days: string, a: string, b: string, c: string)
    requires Plain(days) && ':' !in a && ':' !in b && ':' !in c
    ensures var head := days + "." + a;
            ParseParts(Split(head + ":" + (b + ":" + c), ':')) == Sum(DayPart(days), Stoll(a), Stoll(b), Stoll(c))
            && ParseParts(Split(head + ":" + b, ':')) == Sum(DayPart(days), Some(0), Stoll(a), Stoll(b))
  {
    hide Stoll, Split, Sum, DayPart, ParseParts;
    var head := days + "." + a;
    SplitThree(head, b, c);
    SplitJoin(head, ':', b);
    SplitOnce(b, ':');
    assert Split(head + ":" + b, ':') == [head, b];
    ParsePartsWithDays([head, b, c], days, a);
    ParsePartsWithDays([head, b], days, a);
  }

  /** One part, or more than three, is no span. */
  lemma ParseCounts(a: string, b: string, c: string, rest: string)
    requires ':' !in a && ':' !in b && ':' !in c
    ensures ParseParts(Split(a, ':')) == None
    ensures ParseParts(Split(a + ":" + (b + ":" + (c + ":" + rest)), ':')) == None
  {
    hide Stoll, Split;
    SplitOnce(a, ':');
    SplitJoin(a, ':', b + ":" + (c + ":" + rest));
    SplitJoin(b, ':', c + ":" + rest);
    SplitJoin(c, ':', rest);
    SplitSome(rest);
  }

  lemma SplitSome(s: string)
    ensures Split(s, ':') != []
  {
  }

  // ----- The layout -----

  /** How a number shows in two places. */
  lemma TwoPlaces(n: int)
    ensures 0 <= n < 100 ==> Two(n) == Digits(n / 10) + Digits(n % 10)
    ensures -10 < n < 0 ==> Two(n) == "-" + Digits(-n)
  {
    if 0 <= n < 10 {
      assert Repeat('0', 1) == "0" == Digits(0);
    }
  }

  /**
   * The text of a span that is not negative, by size: days only from a day on, hours in two
   * places; slim, minutes alone below an hour and hours in one place below ten.
   */
  lemma Layout(total: int)
    requires 0 <= total < 0x8000_0000 * DAY
    ensures var d, h, m, s := total / DAY, total / HOUR % 24, total / 60 % 60, total % 60;
            TextOf(total, false) == (if d > 0 then Digits(d) + "." else "") + Two(h) + ":" + Two(m) + ":" + Two(s)
            && TextOf(total, true) == (if total < HOUR then Digits(m) + ":" + Two(s)
                                       else if total < 10 * HOUR then Digits(h) + ":" + Two(m) + ":" + Two(s)
                                       else TextOf(total, false))
  {
    hide Two, Hours, Minutes, Seconds, Days, Digits;
    PartsFromZero(total);
  }

  lemma PartsFromZero(total: int)
    requires 0 <= total < 0x8000_0000 * DAY
    ensures Days(total) == total / DAY && Hours(total) == total / HOUR % 24
    ensures Minutes(total) == total / 60 % 60 && Seconds(total) == total % 60
    ensures total / DAY > 0 <==> total >= DAY
  {
    hide ToInt32;
    Components(total);
    SmallCast(total / DAY);
  }

  /** Below zero the sign is written once in front of the whole, and the parts keep theirs. */
  lemma LayoutBelowZero(total: int)
    requires -0x8000_0000 * DAY < total < 0
    ensures var t := -total;
            var d, h, m, s := t / DAY, t / HOUR % 24, t / 60 % 60, t % 60;
            TextOf(total, false)
            == "-" + ((if d > 0 then Decimal(-d) + "." else "") + Two(-h) + ":" + (Two(-m) + ":" + Two(-s)))
  {
    hide Two, Hours, Minutes, Seconds, Days, Decimal;
    SignAndBody(total, false);
    PartsBelowZero(total);
  }

  lemma PartsBelowZero(total: int)
    requires -0x8000_0000 * DAY < total < 0
    ensures var t := -total;
            Days(total) == -(t / DAY) && Hours(total) == -(t / HOUR % 24)
            && Minutes(total) == -(t / 60 % 60) && Seconds(total) == -(t % 60)
            && (t / DAY > 0 <==> total <= -DAY)
  {
    hide ToInt32;
    Components(total);
    SmallCast(TruncDiv(total, DAY));
  }

  class TimeSpan {
    var totalSeconds: int

    constructor (total: int)
      ensures totalSeconds == total
    {
      totalSeconds := total;
    }

    method Set(days: int, hours: int, minutes: int, seconds: int)
      modifies this
      ensures totalSeconds == Total(days, hours, minutes, seconds)
    {
      totalSeconds := days * DAY;
      totalSeconds := totalSeconds + hours * HOUR;
      totalSeconds := totalSeconds + minutes * 60;
      totalSeconds := totalSeconds + seconds;
    }

    /** `SetMinutes` and its siblings replace one component. */
    method SetMinutes(m: int)
      modifies this
      ensures DaysFit(old(totalSeconds)) ==> totalSeconds == old(totalSeconds) + 60 * (m - Minutes(old(totalSeconds)))
    {
      hide Hours, Minutes, Seconds;
      SetRebuilds(totalSeconds);
      Set(Days(totalSeconds), Hours(totalSeconds), m, Seconds(totalSeconds));
    }

    method ToString(slim: bool) returns (str: string)
      ensures str == TextOf(totalSeconds, slim)
    {
      hide Hours, Minutes, Seconds, Days, Decimal, Two;
      str := "";
      if totalSeconds < 0 {
        str := str + "-";
      }
      if slim && totalSeconds > -36000 && totalSeconds < 36000 {
        if totalSeconds <= -HOUR || totalSeconds >= HOUR {
          str := str + Decimal(Hours(totalSeconds));
          str := str + ":";
          str := str + Two(Minutes(totalSeconds));
        } else {
          str := str + Decimal(Minutes(totalSeconds));
        }
        str := str + ":";
        str := str + Two(Seconds(totalSeconds));
      } else {
        if totalSeconds <= -DAY || totalSeconds >= DAY {
          str := str + Decimal(Days(totalSeconds));
          str := str + ".";
        }
        str := str + Two(Hours(totalSeconds));
        str := str + ":";
        str := str + Two(Minutes(totalSeconds));
        str := str + ":";
        str := str + Two(Seconds(totalSeconds));
      }
    }

    method TryParse(text: string) returns (ok: bool)
      modifies this
      ensures ok == Parse(text).Some?
      ensures totalSeconds == if ok then Parse(text).value else old(totalSeconds)
    {
      hide Stoll, Split;
      if text == "" {
        return false;
      }
      var negative := text[0] == '-';
      var total := 0;
      var res := Split(text[if negative then 1 else 0..], ':');
      if |res| < 2 || |res| > 3 {
        return false;
      }
      var hour := res[0];
      var index := Find(hour, '.');
      if index != |hour| {
        var days := Stoll(hour[..index]);
        if days.None? {
          return false;
        }
        total := total + days.value * DAY;
        hour := hour[index + 1..];
      }
      var first, second := Stoll(hour), Stoll(res[1]);
      if first.None? || second.None? {
        return false;
      }
      if |res| == 2 {
        total := total + first.value * 60;
        total := total + second.value;
      } else {
        var third := Stoll(res[2]);
        if third.None? {
          return false;
        }
        total := total + first.value * HOUR;
        total := total + second.value * 60;
        total := total + third.value;
      }
      if negative {
        total := -total;
      }
      totalSeconds := total;
      ok := true;
    }
  }
}
