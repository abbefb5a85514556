/**
 * Exactly which texts the `time_zone` constructor of ptz.h accepts, and what each means:
 * not only those that `name()` prints, but also written signs, leading zeros, minutes and
 * seconds that are zero, quoted letters, and the shapes without rules. A form is a text
 * taken apart; its text is written with the text that follows it.
 */
module PosixGrammar {
  import opened Text
  import opened PosixZone
  import opened PosixText

  datatype Sign = NoSign | Plus | Minus

  /** Digits of the hour and, where written, of minutes and seconds. */
  datatype ClockForm = Hour(h: string) | HourMinute(h: string, m: string) | HourMinuteSecond(h: string, m: string, s: string)

  datatype SignedForm = SignedForm(sign: Sign, clock: ClockForm)

  datatype NameForm = Letters(name: string) | Quoted(name: string)

  datatype DateForm = JulianForm(n: string) | MonthForm(m: string, n: string, wd: string) | ZeroBasedForm(n: string)

  datatype RuleForm = RuleForm(date: DateForm, time: Option<ClockForm>)

  /** What follows the offset: nothing, or a second name with its offset and the rules, each if written. */
  datatype TailForm = NoTail | Tail(name: NameForm, save: Option<SignedForm>, rules: Option<(RuleForm, RuleForm)>)

  datatype Form = Form(std: NameForm, offset: SignedForm, tail: TailForm)

  // ----- Texts -----

  function ClockText(c: ClockForm, rest: string): string {
    match c
    case Hour(h) => h + rest
    case HourMinute(h, m) => h + (":" + (m + rest))
    case HourMinuteSecond(h, m, s) => h + (":" + (m + (":" + (s + rest))))
  }

  function SignedText(f: SignedForm, rest: string): string {
    match f.sign
    case NoSign => ClockText(f.clock, rest)
    case Plus => "+" + ClockText(f.clock, rest)
    case Minus => "-" + ClockText(f.clock, rest)
  }

  function NameText(n: NameForm, rest: string): string {
    match n
    case Letters(name) => name + rest
    case Quoted(name) => "<" + (name + (">" + rest))
  }

  function DateText(d: DateForm, rest: string): string {
    match d
    case JulianForm(n) => "J" + (n + rest)
    case MonthForm(m, n, wd) => "M" + (m + ("." + (n + ("." + (wd + rest)))))
    case ZeroBasedForm(n) => n + rest
  }

  function TimeText(time: Option<ClockForm>, rest: string): string {
    match time
    case None => rest
    case Some(c) => "/" + ClockText(c, rest)
  }

  function RuleText(r: RuleForm, rest: string): string {
    DateText(r.date, TimeText(r.time, rest))
  }

  function BothRulesText(rules: Option<(RuleForm, RuleForm)>): string {
    match rules
    case None => ""
    case Some((start, end)) => "," + RuleText(start, "," + RuleText(end, ""))
  }

  function SaveFormText(save: Option<SignedForm>, rest: string): string {
    match save
    case None => rest
    case Some(f) => SignedText(f, rest)
  }

  function TailText(t: TailForm): string {
    match t
    case NoTail => ""
    case Tail(name, save, rules) => NameText(name, SaveFormText(save, BothRulesText(rules)))
  }

  function FormText(f: Form): string {
    NameText(f.std, SignedText(f.offset, TailText(f.tail)))
  }

  // ----- Which forms are well written; a digit run ends where it must -----

  predicate NumberOk(d: string, limit: nat, rest: string) {
    AllDigits(d) && 1 <= |d| <= limit && (|d| == limit || Stops(rest))
  }

  predicate Within(d: string, lo: nat, hi: nat) {
    AllDigits(d) && lo <= Value(d) <= hi
  }

  predicate ClockOk(c: ClockForm, rest: string) {
    Within(c.h, 0, 24) && 1 <= |c.h| <= 2
    && match c
       case Hour(h) => NumberOk(h, 2, rest) && !StartsWith(rest, ':')
       case HourMinute(_, m) => NumberOk(m, 2, rest) && Within(m, 0, 59) && !StartsWith(rest, ':')
       case HourMinuteSecond(_, m, s) =>
         Within(m, 0, 59) && 1 <= |m| <= 2 && NumberOk(s, 2, rest) && Within(s, 0, 59)
  }

  /** Bare letters end where a letter no longer follows; none at all is a name too, if something follows that is not "<". */
  predicate NameOk(n: NameForm, rest: string) {
    match n
    case Letters(name) =>
      AllAlpha(name) && (rest == "" || !IsAlpha(rest[0])) && (name == "" ==> rest != "" && rest[0] != '<')
    case Quoted(name) => '>' !in name
  }

  predicate DateOk(d: DateForm, rest: string) {
    match d
    case JulianForm(n) => NumberOk(n, 3, rest) && Within(n, 1, 365)
    case MonthForm(m, n, wd) =>
      1 <= |m| <= 2 && Within(m, 1, 12) && |n| == 1 && Within(n, 1, 5) && |wd| == 1 && Within(wd, 0, 6)
    case ZeroBasedForm(n) => NumberOk(n, 3, rest) && Within(n, 0, 365)
  }

  predicate RuleFormOk(r: RuleForm, rest: string) {
    DateOk(r.date, TimeText(r.time, rest))
    && match r.time
       case None => !StartsWith(rest, '/')
       case Some(c) => ClockOk(c, rest)
  }

  predicate TailOk(t: TailForm) {
    match t
    case NoTail => true
    case Tail(name, save, rules) =>
      NameOk(name, SaveFormText(save, BothRulesText(rules)))
      && (save.Some? ==> ClockOk(save.value.clock, BothRulesText(rules)))
      && (rules.Some? ==> RuleFormOk(rules.value.0, "," + RuleText(rules.value.1, "")) && RuleFormOk(rules.value.1, ""))
  }

  predicate FormOk(f: Form) {
    NameOk(f.std, SignedText(f.offset, TailText(f.tail))) && ClockOk(f.offset.clock, TailText(f.tail)) && TailOk(f.tail)
  }

  // ----- Meaning -----

  function NumberOf(d: string): nat {
    if AllDigits(d) then Value(d) else 0
  }

  function ClockValue(c: ClockForm): nat {
    match c
    case Hour(h) => NumberOf(h) * HOUR
    case HourMinute(h, m) => NumberOf(h) * HOUR + NumberOf(m) * 60
    case HourMinuteSecond(h, m, s) => NumberOf(h) * HOUR + NumberOf(m) * 60 + NumberOf(s)
  }

  function SignedValue(f: SignedForm): int {
    if f.sign == Minus then -(ClockValue(f.clock) as int) else ClockValue(f.clock)
  }

  function DateValue(d: DateForm): Mode {
    match d
    case JulianForm(n) => J(NumberOf(n))
    case MonthForm(m, n, wd) => M(NumberOf(m), NumberOf(n), NumberOf(wd) % 7)
    case ZeroBasedForm(n) => N(NumberOf(n))
  }

  /** A rule without a time of day is for two in the morning. */
  function RuleValue(r: RuleForm): Rule {
    Rule(DateValue(r.date), match r.time case None => 2 * HOUR case Some(c) => ClockValue(c))
  }

  /** Seconds east of UTC: the text counts west. */
  function OffsetValue(f: SignedForm): int {
    -SignedValue(f)
  }

  /** Daylight time is an hour ahead unless its own offset is written. */
  function SaveValue(offset: SignedForm, save: Option<SignedForm>): int {
    match save
    case None => HOUR
    case Some(f) => OffsetValue(f) - OffsetValue(offset)
  }

  /**
   * With rules, both names need three characters. Without, a second name of three characters
   * takes the place of the first, and otherwise the first must have them and stands alone.
   */
  function Meaning(f: Form): Option<Zone> {
    var std, offset := f.std.name, OffsetValue(f.offset);
    match f.tail
    case NoTail => if |std| >= 3 then Some(Zone(std, "", offset, 0, NO_RULE, NO_RULE)) else None
    case Tail(n, save, Some((start, end))) =>
      if |std| >= 3 && |n.name| >= 3 then
        Some(Zone(std, n.name, offset, SaveValue(f.offset, save), RuleValue(start), RuleValue(end)))
      else None
    case Tail(n, save, None) =>
      if |n.name| >= 3 then Some(Zone("", n.name, offset, SaveValue(f.offset, save), NO_RULE, NO_RULE))
      else if |std| >= 3 then Some(Zone(std, "", offset, 0, NO_RULE, NO_RULE))
      else None
  }

  // ----- Well-written forms are read -----

  lemma NumberReads(d: string, limit: nat, rest: string)
    requires NumberOk(d, limit, rest)
    ensures ReadUnsigned(d + rest, limit) == Some((NumberOf(d), rest))
  {
    hide Value;
    var s := d + rest;
    assert s[0..|d|] == d == s[..|d|] && s[|d|..] == rest;
    SpanOfRun(s, 0, d, limit);
  }

  lemma StepReads(c: char, d: string, limit: nat, rest: string)
    requires NumberOk(d, limit, rest)
    ensures var s := [c] + (d + rest); s[0] == c && ReadUnsigned(s[1..], limit) == Some((NumberOf(d), rest))
  {
    hide NumberOk;
    NumberReads(d, limit, rest);
    assert ([c] + (d + rest))[1..] == d + rest;
  }

  lemma ClockReads(c: ClockForm, rest: string)
    requires ClockOk(c, rest)
    ensures ReadUnsignedTime(ClockText(c, rest)) == Some((ClockValue(c), rest))
    ensures ClockText(c, rest) != "" && IsDigit(ClockText(c, rest)[0])
  {
    hide ReadUnsigned, Value;
    assert IsDigit(c.h[0]);
    match c {
      case Hour(h) =>
        NumberReads(h, 2, rest);
      case HourMinute(h, m) =>
        NumberReads(h, 2, ":" + (m + rest));
        StepReads(':', m, 2, rest);
      case HourMinuteSecond(h, m, s) =>
        NumberReads(h, 2, ":" + (m + (":" + (s + rest))));
        StepReads(':', m, 2, ":" + (s + rest));
        StepReads(':', s, 2, rest);
    }
  }

  /** A sign in front of any readable time: plus changes nothing, minus negates. */
  lemma SignsRead(s: string, t: nat, rest: string)
    requires ReadUnsignedTime(s) == Some((t, rest))
    ensures ReadSignedTime("+" + s) == Some((t as int, rest))
    ensures ReadSignedTime("-" + s) == Some((-(t as int), rest))
    ensures ReadSignedTime(s) == Some((t as int, rest))
  {
    StartsWithDigit(s);
    hide ReadUnsignedTime;
    assert ("+" + s)[1..] == s && ("-" + s)[1..] == s;
  }

  lemma StartsWithDigit(s: string)
    requires ReadUnsignedTime(s).Some?
    ensures s != "" && IsDigit(s[0])
  {
    hide Value;
  }

  lemma SignedReads(f: SignedForm, rest: string)
    requires ClockOk(f.clock, rest)
    ensures ReadSignedTime(SignedText(f, rest)) == Some((SignedValue(f), rest))
    ensures var s := SignedText(f, rest); s != "" && (s[0] == '-' || s[0] == '+' || IsDigit(s[0]))
  {
    hide ReadUnsignedTime, ReadSignedTime, ClockOk, ClockValue, ClockText;
    ClockReads(f.clock, rest);
    SignsRead(ClockText(f.clock, rest), ClockValue(f.clock), rest);
  }

  lemma NameReads(n: NameForm, rest: string)
    requires NameOk(n, rest)
    ensures ReadName(NameText(n, rest)) == Some((n.name, rest)) && NameText(n, rest) != ""
  {
    match n {
      case Letters(name) =>
        ReadPlainName(name, rest);
      case Quoted(name) =>
        ReadQuotedName(name, rest);
        assert "<" + (name + ">") + rest == NameText(n, rest);
    }
  }

  lemma DateReads(d: DateForm, rest: string)
    requires DateOk(d, rest)
    ensures ReadMode(DateText(d, rest)) == Some((DateValue(d), rest))
  {
    hide ReadUnsigned, Value;
    match d {
      case JulianForm(n) =>
        StepReads('J', n, 3, rest);
      case ZeroBasedForm(n) =>
        NumberReads(n, 3, rest);
        assert IsDigit(n[0]);
      case MonthForm(m, n, wd) =>
        StepReads('M', m, 2, "." + (n + ("." + (wd + rest))));
        StepReads('.', n, 1, "." + (wd + rest));
        StepReads('.', wd, 1, rest);
    }
  }

  lemma RuleReads(r: RuleForm, rest: string)
    requires RuleFormOk(r, rest)
    ensures ReadDate(RuleText(r, rest)) == Some((RuleValue(r), rest))
  {
    hide ReadMode, ReadUnsignedTime, DateText, ClockText, DateOk, ClockOk, DateValue, ClockValue;
    DateReads(r.date, TimeText(r.time, rest));
    if r.time.Some? {
      ClockReads(r.time.value, rest);
      assert ("/" + ClockText(r.time.value, rest))[1..] == ClockText(r.time.value, rest);
    }
  }

  lemma BothRulesRead(start: RuleForm, end: RuleForm)
    requires RuleFormOk(start, "," + RuleText(end, "")) && RuleFormOk(end, "")
    ensures ReadRules(BothRulesText(Some((start, end)))) == Some((RuleValue(start), RuleValue(end)))
  {
    hide ReadDate, RuleText, RuleFormOk, RuleValue;
    var tail := "," + RuleText(end, "");
    assert ("," + RuleText(start, tail))[1..] == RuleText(start, tail);
    assert tail[1..] == RuleText(end, "");
    RuleReads(start, tail);
    RuleReads(end, "");
  }

  lemma SaveReads(offset: SignedForm, save: Option<SignedForm>, rest: string)
    requires save.Some? ==> ClockOk(save.value.clock, rest)
    requires rest == "" || rest[0] == ','
    ensures var s := SaveFormText(save, rest);
            s != "" ==> ReadSave(s, OffsetValue(offset)) == Some((SaveValue(offset, save), rest))
    ensures SaveFormText(save, rest) == "" <==> save.None? && rest == ""
  {
    hide ReadSignedTime, SignedText, ClockOk, SignedValue;
    if save.Some? {
      SignedReads(save.value, rest);
    }
  }

  /** Every well-written form is read as what it means. */
  lemma FormReads(f: Form)
    requires FormOk(f)
    ensures Parse(FormText(f)) == Meaning(f)
  {
    hide ReadName, ReadSignedTime, ReadSave, ReadRules, NameText, SignedText, NameOk, ClockOk, RuleFormOk, SignedValue, RuleText;
    NameReads(f.std, SignedText(f.offset, TailText(f.tail)));
    SignedReads(f.offset, TailText(f.tail));
    match f.tail {
      case NoTail =>
      case Tail(name, save, rules) =>
        var rest := BothRulesText(rules);
        NameReads(name, SaveFormText(save, rest));
        SaveReads(f.offset, save, rest);
        if rules.Some? {
          BothRulesRead(rules.value.0, rules.value.1);
          RuleIsSet(rules.value.0);
        }
    }
  }

  lemma RuleIsSet(r: RuleForm)
    ensures RuleValue(r).mode != Off
  {
  }

  // ----- What is read is a well-written form -----

  lemma NumberForm(s: string, limit: nat) returns (d: string)
    requires ReadUnsigned(s, limit).Some?
    ensures var (v, rest) := ReadUnsigned(s, limit).value;
            s == d + rest && NumberOk(d, limit, rest) && v == NumberOf(d) == Value(d) && |rest| < |s|
  {
    hide Value;
    var n := DigitSpan(s, 0, limit);
    d := s[..n];
    assert s == s[..n] + s[n..];
  }

  lemma TailOfText(s: string, c: char)
    requires StartsWith(s, c)
    ensures s == [c] + s[1..]
  {
  }

  lemma ClockFormOf(s: string) returns (c: ClockForm)
    requires ReadUnsignedTime(s).Some?
    ensures var (t, rest) := ReadUnsignedTime(s).value;
            s == ClockText(c, rest) && ClockOk(c, rest)
  {
    hide ReadUnsigned, Value;
    var h := NumberForm(s, 2);
    var s1 := ReadUnsigned(s, 2).value.1;
    if !StartsWith(s1, ':') {
      c := Hour(h);
    } else {
      TailOfText(s1, ':');
      var m := NumberForm(s1[1..], 2);
      var s2 := ReadUnsigned(s1[1..], 2).value.1;
      if !StartsWith(s2, ':') {
        c := HourMinute(h, m);
      } else {
        TailOfText(s2, ':');
        var sec := NumberForm(s2[1..], 2);
        c := HourMinuteSecond(h, m, sec);
      }
    }
  }

  lemma SignedFormOf(s: string) returns (f: SignedForm)
    requires ReadSignedTime(s).Some?
    ensures var (t, rest) := ReadSignedTime(s).value;
            s == SignedText(f, rest) && ClockOk(f.clock, rest)
  {
    hide ReadUnsignedTime, ClockText, ClockOk;
    var sign := if s[0] == '-' then Minus else if s[0] == '+' then Plus else NoSign;
    var c := ClockFormOf(if sign == NoSign then s else s[1..]);
    f := SignedForm(sign, c);
    TailOfText(s, s[0]);
  }

  lemma NameFormOf(s: string) returns (n: NameForm)
    requires ReadName(s).Some?
    ensures var (name, rest) := ReadName(s).value;
            s == NameText(n, rest) && NameOk(n, rest)
  {
    if s[0] == '<' {
      var t := s[1..];
      var k := Find(t, '>');
      n := Quoted(t[..k]);
      assert s == "<" + t;
      assert t == t[..k] + (">" + t[k + 1..]);
    } else {
      var k := AlphaSpan(s);
      n := Letters(s[..k]);
      assert s == s[..k] + s[k..];
    }
  }

  lemma DateFormOf(s: string) returns (d: DateForm)
    requires ReadMode(s).Some?
    ensures var (mode, rest) := ReadMode(s).value;
            s == DateText(d, rest) && DateOk(d, rest)
  {
    hide ReadUnsigned, Value;
    if StartsWith(s, 'J') {
      TailOfText(s, 'J');
      var n := NumberForm(s[1..], 3);
      d := JulianForm(n);
    } else if StartsWith(s, 'M') {
      TailOfText(s, 'M');
      var m := NumberForm(s[1..], 2);
      var s1 := ReadUnsigned(s[1..], 2).value.1;
      TailOfText(s1, '.');
      var n := NumberForm(s1[1..], 1);
      var s2 := ReadUnsigned(s1[1..], 1).value.1;
      TailOfText(s2, '.');
      var wd := NumberForm(s2[1..], 1);
      d := MonthForm(m, n, wd);
    } else {
      var n := NumberForm(s, 3);
      d := ZeroBasedForm(n);
    }
  }

  lemma RuleFormOf(s: string) returns (r: RuleForm)
    requires ReadDate(s).Some?
    ensures var (rule, rest) := ReadDate(s).value;
            s == RuleText(r, rest) && RuleFormOk(r, rest)
  {
    hide ReadMode, ReadUnsignedTime, DateText, ClockText, DateOk, ClockOk;
    var d := DateFormOf(s);
    var s1 := ReadMode(s).value.1;
    if StartsWith(s1, '/') {
      TailOfText(s1, '/');
      var c := ClockFormOf(s1[1..]);
      r := RuleForm(d, Some(c));
    } else {
      r := RuleForm(d, None);
    }
  }

  lemma BothRulesFormOf(s: string) returns (start: RuleForm, end: RuleForm)
    requires ReadRules(s).Some?
    ensures s == BothRulesText(Some((start, end)))
    ensures RuleFormOk(start, "," + RuleText(end, "")) && RuleFormOk(end, "")
  {
    hide ReadDate, RuleText, RuleFormOk;
    TailOfText(s, ',');
    start := RuleFormOf(s[1..]);
    var s1 := ReadDate(s[1..]).value.1;
    TailOfText(s1, ',');
    end := RuleFormOf(s1[1..]);
  }

  lemma TailFormOf(s: string, offset: int) returns (t: TailForm)
    requires s != ""
    requires ReadName(s).Some?
    requires var s3 := ReadName(s).value.1;
             s3 != "" ==> ReadSave(s3, offset).Some?
                          && var s4 := ReadSave(s3, offset).value.1; s4 != "" ==> ReadRules(s4).Some?
    ensures s == TailText(t) && TailOk(t)
  {
    hide ReadName, ReadSignedTime, ReadRules, NameText, SignedText, NameOk, ClockOk, RuleFormOk, RuleText;
    var n := NameFormOf(s);
    var s3 := ReadName(s).value.1;
    if s3 == "" {
      t := Tail(n, None, None);
    } else {
      var save, s4 := None, s3;
      if !StartsWith(s3, ',') {
        var f := SignedFormOf(s3);
        save, s4 := Some(f), ReadSignedTime(s3).value.1;
      }
      if s4 == "" {
        t := Tail(n, save, None);
      } else {
        var start, end := BothRulesFormOf(s4);
        t := Tail(n, save, Some((start, end)));
      }
    }
  }

  /** And whatever is accepted is the text of a well-written form with that meaning. */
  lemma AcceptedForm(s: string) returns (f: Form)
    requires Parse(s).Some?
    ensures FormOk(f) && FormText(f) == s && Meaning(f) == Parse(s)
  {
    hide ReadName, ReadSignedTime, ReadSave, ReadRules, NameText, SignedText, NameOk, ClockOk, Finish, TailOk, TailText, Meaning;
    var n := NameFormOf(s);
    var s1 := ReadName(s).value.1;
    var o := SignedFormOf(s1);
    var (t, s2) := ReadSignedTime(s1).value;
    if s2 == "" {
      f := Form(n, o, NoTail);
      NoTailOk();
    } else {
      var tail := TailFormOf(s2, -t);
      f := Form(n, o, tail);
    }
    FormReads(f);
  }

  lemma NoTailOk()
    ensures TailOk(NoTail) && TailText(NoTail) == ""
  {
  }

  /** So these are the accepted texts, and these are their zones. */
  lemma AcceptedExactly(s: string, z: Zone)
    ensures Parse(s) == Some(z) <==> exists f :: FormOk(f) && FormText(f) == s && Meaning(f) == Some(z)
  {
    hide Parse, FormOk, FormText, Meaning;
    if Parse(s) == Some(z) {
      var f := AcceptedForm(s);
    } else if f :| FormOk(f) && FormText(f) == s && Meaning(f) == Some(z) {
      FormReads(f);
    }
  }

  // ----- What name() writes -----

  /** A time is written with no more than it needs: the hour bare, two places for what follows, nothing that is zero at the end. */
  lemma PrintedTime(t: nat)
    ensures var h, m, s := t / HOUR, t / 60 % 60, t % 60;
            PrintTime(t) == if s != 0 then Digits(h) + ":" + TwoDigits(m) + ":" + TwoDigits(s)
                            else if m != 0 then Digits(h) + ":" + TwoDigits(m)
                            else Digits(h)
    ensures var m := t / 60 % 60; |TwoDigits(m)| == 2
    ensures var s := t % 60; |TwoDigits(s)| == 2
  {
    hide Digits, HOUR;
    SmallDigits(t / 60 % 60);
    SmallDigits(t % 60);
  }

  /** Only names that are not all letters are quoted, the save is written when it is not an hour, a time when it is not two o'clock. */
  lemma PrintedParts(name: string, r: Rule, z: Zone)
    requires r.time >= 0
    ensures AllAlpha(name) ==> PrintAbbrev(name) == name
    ensures r.time == 2 * HOUR ==> PrintRule(r) == PrintMode(r.mode)
    ensures z.save == HOUR <==> SaveText(z) == ""
  {
    hide PrintTime;
    if z.save != HOUR {
      PrintTimeStart(if -(z.offset + z.save) < 0 then z.offset + z.save else -(z.offset + z.save), "");
    }
  }
}
