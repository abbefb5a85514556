/**
 * Reading and printing POSIX TZ strings (ptz.h; section 8.3 of the Base Definitions of
 * IEEE Std 1003.1-2017). A read function takes the text that is left and returns what it
 * read with the text after it; None stands for the exception of `throw_invalid`.
 */
module PosixText {
  import opened Text
  import opened PosixZone

  const NO_RULE := Rule(Off, 2 * HOUR)

  predicate IsAlpha(c: char) {
    'a' <= c <= 'z' || 'A' <= c <= 'Z'
  }

  /** The 52 letters of ASCII, by code. */
  lemma AlphaCharacters(c: char)
    ensures IsAlpha(c) <==> 65 <= c as int <= 90 || 97 <= c as int <= 122
  {
    assert 'A' as int == 65 && 'Z' as int == 90 && 'a' as int == 97 && 'z' as int == 122;
  }

  predicate AllAlpha(s: string) {
    forall i :: 0 <= i < |s| ==> IsAlpha(s[i])
  }

  function AlphaSpan(s: string): (n: nat)
    ensures n <= |s| && AllAlpha(s[..n]) && (n < |s| ==> !IsAlpha(s[n]))
  {
    if s == "" || !IsAlpha(s[0]) then 0
    else
      var n := AlphaSpan(s[1..]);
      assert s[..n + 1] == [s[0]] + s[1..][..n];
      1 + n
  }

  predicate StartsWith(s: string, c: char) {
    s != "" && s[0] == c
  }

  // ----- Reading -----

  function ReadUnsigned(s: string, limit: nat): Option<(nat, string)> {
    var n := DigitSpan(s, 0, limit);
    if n == 0 then None else Some((Value(s[..n]), s[n..]))
  }

  function ReadUnsignedTime(s: string): Option<(nat, string)> {
    var (h, s1) :- ReadUnsigned(s, 2);
    if h > 24 then None
    else if !StartsWith(s1, ':') then Some((h * HOUR, s1))
    else
      var (m, s2) :- ReadUnsigned(s1[1..], 2);
      if m > 59 then None
      else if !StartsWith(s2, ':') then Some((h * HOUR + m * 60, s2))
      else
        var (sec, s3) :- ReadUnsigned(s2[1..], 2);
        if sec > 59 then None else Some((h * HOUR + m * 60 + sec, s3))
  }

  function ReadSignedTime(s: string): Option<(int, string)> {
    if s == "" then None
    else
      var negative := s[0] == '-';
      var (t, rest) :- ReadUnsignedTime(if negative || s[0] == '+' then s[1..] else s);
      var v: int := if negative then -(t as int) else t;
      Some((v, rest))
  }

  function ReadName(s: string): Option<(string, string)> {
    if s == "" then None
    else if s[0] == '<' then
      var k := Find(s[1..], '>');
      if k == |s| - 1 then None else Some((s[1..][..k], s[1..][k + 1..]))
    else
      var k := AlphaSpan(s);
      Some((s[..k], s[k..]))
  }

  function ReadMode(s: string): Option<(Mode, string)> {
    if StartsWith(s, 'J') then
      var (n, rest) :- ReadUnsigned(s[1..], 3);
      if 1 <= n <= 365 then Some((J(n), rest)) else None
    else if StartsWith(s, 'M') then
      var (m, s1) :- ReadUnsigned(s[1..], 2);
      if !(1 <= m <= 12) || !StartsWith(s1, '.') then None
      else
        var (n, s2) :- ReadUnsigned(s1[1..], 1);
        if !(1 <= n <= 5) || !StartsWith(s2, '.') then None
        else
          var (wd, rest) :- ReadUnsigned(s2[1..], 1);
          if wd > 6 then None else Some((M(m, n, wd), rest))
    else
      var (n, rest) :- ReadUnsigned(s, 3);
      if n > 365 then None else Some((N(n), rest))
  }

  /** `read_date`: a rule, and its time of day when one is written. */
  function ReadDate(s: string): Option<(Rule, string)> {
    var (mode, s1) :- ReadMode(s);
    if StartsWith(s1, '/') then
      var (t, rest) :- ReadUnsignedTime(s1[1..]);
      Some((Rule(mode, t), rest))
    else Some((Rule(mode, 2 * HOUR), s1))
  }

  /** The two rules after the abbreviations, to the end of the text. */
  function ReadRules(s: string): Option<(Rule, Rule)> {
    if !StartsWith(s, ',') then None
    else
      var (start, s1) :- ReadDate(s[1..]);
      if !StartsWith(s1, ',') then None
      else
        var (end, s2) :- ReadDate(s1[1..]);
        if s2 == "" then Some((start, end)) else None
  }

  /** The checks at the end of the `time_zone` constructor. */
  function Finish(z: Zone): Option<Zone> {
    if z.start.mode != Off then
      if |z.std| < 3 || |z.dst| < 3 then None else Some(z)
    else if |z.dst| >= 3 then Some(z.(std := ""))
    else if |z.std| < 3 then None
    else Some(z.(dst := "", save := 0))
  }

  /** The `time_zone` constructor. */
  function Parse(s: string): Option<Zone> {
    var (std, s1) :- ReadName(s);
    var (t, s2) :- ReadSignedTime(s1);
    if s2 == "" then Finish(Zone(std, "", -t, HOUR, NO_RULE, NO_RULE))
    else
      var (dst, s3) :- ReadName(s2);
      if s3 == "" then Finish(Zone(std, dst, -t, HOUR, NO_RULE, NO_RULE))
      else
        var (save, s4) :- ReadSave(s3, -t);
        if s4 == "" then Finish(Zone(std, dst, -t, save, NO_RULE, NO_RULE))
        else
          var (start, end) :- ReadRules(s4);
          Finish(Zone(std, dst, -t, save, start, end))
  }

  function ReadSave(s: string, offset: int): Option<(int, string)> {
    if StartsWith(s, ',') then Some((HOUR, s))
    else
      var (t, rest) :- ReadSignedTime(s);
      Some((-t - offset, rest))
  }

  // ----- Printing -----

  function TwoDigits(n: nat): string {
    (if n < 10 then "0" else "") + Digits(n)
  }

  /** Hours, then minutes and seconds as far as they are not zero. */
  function PrintTime(t: nat): string {
    var h, m, s := t / HOUR, t / 60 % 60, t % 60;
    Digits(h) + (if m != 0 || s != 0 then ":" + (TwoDigits(m) + (if s != 0 then ":" + TwoDigits(s) else "")) else "")
  }

  /** `print_offset` of `name`: west is positive. */
  function PrintOffset(offset: int): string {
    if -offset < 0 then "-" + PrintTime(offset) else PrintTime(-offset)
  }

  function PrintAbbrev(name: string): string {
    if AllAlpha(name) then name else "<" + (name + ">")
  }

  function PrintMode(mode: Mode): string {
    match mode
    case J(n) => "J" + Digits(n)
    case M(m, n, wd) => "M" + (Digits(m) + ("." + (Digits(n) + ("." + Digits(wd)))))
    case N(n) => Digits(n)
    case Off => ""
  }

  /** `rule::to_string`. */
  function PrintRule(r: Rule): string
    requires r.time >= 0
  {
    PrintMode(r.mode) + (if r.time != 2 * HOUR then "/" + PrintTime(r.time) else "")
  }

  function RulesText(z: Zone): string
    requires z.start.time >= 0 && z.end.time >= 0
  {
    if z.start.mode != Off then "," + (PrintRule(z.start) + ("," + PrintRule(z.end))) else ""
  }

  function SaveText(z: Zone): string {
    if z.save != HOUR then PrintOffset(z.offset + z.save) else ""
  }

  function PrintDst(z: Zone): string
    requires z.start.time >= 0 && z.end.time >= 0
  {
    if z.dst == "" then "" else PrintAbbrev(z.dst) + (SaveText(z) + RulesText(z))
  }

  /** `time_zone::name`. */
  function Name(z: Zone): string
    requires z.start.time >= 0 && z.end.time >= 0
  {
    PrintAbbrev(z.std) + (PrintOffset(z.offset) + PrintDst(z))
  }

  // ----- The zones the constructor makes -----

  const MAX_TIME := 24 * HOUR + 59 * 60 + 59

  predicate OffsetOk(t: int) {
    -MAX_TIME <= t <= MAX_TIME
  }

  predicate ModeOk(mode: Mode) {
    match mode
    case J(n) => 1 <= n <= 365
    case M(m, n, wd) => 1 <= m <= 12 && 1 <= n <= 5
    case N(n) => n <= 365
    case Off => false
  }

  predicate RuleOk(r: Rule) {
    ModeOk(r.mode) && 0 <= r.time <= MAX_TIME
  }

  predicate Canonical(z: Zone) {
    '>' !in z.std && '>' !in z.dst && OffsetOk(z.offset)
    && (z.save == HOUR || OffsetOk(z.offset + z.save))
    && (if z.start.mode != Off then RuleOk(z.start) && RuleOk(z.end) && |z.std| >= 3 && |z.dst| >= 3
        else z.start == z.end == NO_RULE
             && ((z.std == "" && |z.dst| >= 3) || (|z.std| >= 3 && z.dst == "" && z.save == 0)))
  }

  // ----- What is accepted is canonical -----

  lemma ReadUnsignedTimeRange(s: string)
    ensures ReadUnsignedTime(s).Some? ==> ReadUnsignedTime(s).value.0 <= MAX_TIME
  {
    hide ReadUnsigned;
  }

  lemma ReadSignedTimeRange(s: string)
    ensures ReadSignedTime(s).Some? ==> OffsetOk(ReadSignedTime(s).value.0)
  {
    hide ReadUnsignedTime;
    if s != "" {
      ReadUnsignedTimeRange(if s[0] == '-' || s[0] == '+' then s[1..] else s);
    }
  }

  lemma ReadNameChars(s: string)
    ensures ReadName(s).Some? ==> '>' !in ReadName(s).value.0
  {
  }

  lemma ReadDateRange(s: string)
    ensures ReadDate(s).Some? ==> RuleOk(ReadDate(s).value.0)
  {
    hide ReadUnsigned, ReadUnsignedTime;
    var mode := ReadMode(s);
    if mode.Some? && StartsWith(mode.value.1, '/') {
      ReadUnsignedTimeRange(mode.value.1[1..]);
    }
  }

  lemma ReadRulesRange(s: string)
    ensures var r := ReadRules(s); r.Some? ==> RuleOk(r.value.0) && RuleOk(r.value.1)
  {
    hide ReadDate, RuleOk;
    if StartsWith(s, ',') {
      ReadDateRange(s[1..]);
      var start := ReadDate(s[1..]);
      if start.Some? && StartsWith(start.value.1, ',') {
        ReadDateRange(start.value.1[1..]);
      }
    }
  }

  lemma ReadSaveRange(s: string, offset: int)
    ensures var r := ReadSave(s, offset); r.Some? ==> r.value.0 == HOUR || OffsetOk(offset + r.value.0)
  {
    hide ReadSignedTime;
    ReadSignedTimeRange(s);
  }

  lemma AcceptedIsCanonical(s: string)
    ensures Parse(s).Some? ==> Canonical(Parse(s).value)
  {
    hide ReadName, ReadSignedTime, ReadSave, ReadRules;
    ReadNameChars(s);
    var std := ReadName(s);
    if std.Some? {
      ReadSignedTimeRange(std.value.1);
      var t := ReadSignedTime(std.value.1);
      if t.Some? {
        var s2 := t.value.1;
        ReadNameChars(s2);
        var dst := ReadName(s2);
        if dst.Some? {
          ReadSaveRange(dst.value.1, -t.value.0);
          var save := ReadSave(dst.value.1, -t.value.0);
          if save.Some? {
            ReadRulesRange(save.value.1);
          }
        }
      }
    }
  }

  // ----- What is printed reads back -----

  /** Nothing after a printed number that a digit run could swallow. */
  predicate Stops(rest: string) {
    rest == "" || !IsDigit(rest[0])
  }

  lemma ReadUnsignedDigits(n: nat, limit: nat, rest: string)
    requires |Digits(n)| <= limit && (|Digits(n)| == limit || Stops(rest))
    ensures ReadUnsigned(Digits(n) + rest, limit) == Some((n, rest))
  {
    hide Digits;
    var d := Digits(n);
    var s := d + rest;
    assert s[0..|d|] == d == s[..|d|] && s[|d|..] == rest;
    SpanOfRun(s, 0, d, limit);
    ValueOfDigits(n);
  }

  lemma SmallDigits(n: nat)
    ensures n < 10 ==> |Digits(n)| == 1
    ensures 10 <= n < 100 ==> |Digits(n)| == 2
    ensures 100 <= n < 1000 ==> |Digits(n)| == 3
  {
  }

  lemma ReadTwoDigits(n: nat, rest: string)
    requires n < 100
    ensures ReadUnsigned(TwoDigits(n) + rest, 2) == Some((n, rest))
  {
    hide Digits;
    SmallDigits(n);
    if n < 10 {
      var d := "0" + Digits(n);
      var s := d + rest;
      assert s[0..2] == d == s[..2] && s[2..] == rest;
      SpanOfRun(s, 0, d, 2);
      ValueOfDigits(n);
      ValueLeadingZero(Digits(n));
    } else {
      assert "" + Digits(n) == Digits(n);
      ReadUnsignedDigits(n, 2, rest);
    }
  }

  /** Text that may follow a printed time. */
  predicate AfterTime(rest: string) {
    Stops(rest) && !StartsWith(rest, ':')
  }

  lemma TimeParts(t: nat)
    requires t <= MAX_TIME
    ensures t == t / HOUR * HOUR + t / 60 % 60 * 60 + t % 60 && t / HOUR <= 24
  {
  }

  function PrintSeconds(sec: nat): string {
    if sec != 0 then ":" + TwoDigits(sec) else ""
  }

  lemma ReadTimeStep(n: nat, tail: string)
    requires n < 100
    ensures ReadUnsigned((":" + (TwoDigits(n) + tail))[1..], 2) == Some((n, tail))
  {
    hide TwoDigits;
    ReadTwoDigits(n, tail);
    assert (":" + (TwoDigits(n) + tail))[1..] == TwoDigits(n) + tail;
  }

  lemma ReadTimeText(h: nat, m: nat, sec: nat, rest: string)
    requires h <= 24 && m <= 59 && sec <= 59 && AfterTime(rest)
    ensures var tail := if m != 0 || sec != 0 then ":" + (TwoDigits(m) + (PrintSeconds(sec) + rest)) else rest;
            ReadUnsignedTime(Digits(h) + tail) == Some((h * HOUR + m * 60 + sec, rest))
  {
    hide ReadUnsigned, Digits, TwoDigits;
    var tail2 := PrintSeconds(sec) + rest;
    var tail := if m != 0 || sec != 0 then ":" + (TwoDigits(m) + tail2) else rest;
    SmallDigits(h);
    ReadUnsignedDigits(h, 2, tail);
    if m != 0 || sec != 0 {
      ReadTimeStep(m, tail2);
      if sec != 0 {
        assert tail2 == ":" + (TwoDigits(sec) + rest);
        ReadTimeStep(sec, rest);
      } else {
        assert tail2 == rest;
      }
    }
  }

  lemma ReadTime(t: nat, rest: string)
    requires t <= MAX_TIME && AfterTime(rest)
    ensures ReadUnsignedTime(PrintTime(t) + rest) == Some((t, rest))
  {
    hide ReadUnsignedTime, Digits, TwoDigits;
    var h, m, sec := t / HOUR, t / 60 % 60, t % 60;
    TimeParts(t);
    ReadTimeText(h, m, sec, rest);
    if m != 0 || sec != 0 {
      assert PrintTime(t) + rest == Digits(h) + (":" + (TwoDigits(m) + (PrintSeconds(sec) + rest)));
    } else {
      assert PrintTime(t) + rest == Digits(h) + rest;
    }
  }

  lemma PrintTimeStart(t: nat, rest: string)
    ensures PrintTime(t) != "" && IsDigit((PrintTime(t) + rest)[0])
  {
    assert IsDigit(Digits(t / HOUR)[0]);
  }

  lemma ReadOffset(offset: int, rest: string)
    requires OffsetOk(offset) && AfterTime(rest)
    ensures ReadSignedTime(PrintOffset(offset) + rest) == Some((-offset, rest))
    ensures var s := PrintOffset(offset) + rest;
            s != "" && (s[0] == '-' || IsDigit(s[0]))
  {
    hide ReadUnsignedTime, PrintTime;
    var s := PrintOffset(offset) + rest;
    if -offset < 0 {
      ReadTime(offset, rest);
      assert s[1..] == PrintTime(offset) + rest;
    } else {
      ReadTime(-offset, rest);
      PrintTimeStart(-offset, rest);
    }
  }

  /** Text that may follow a printed abbreviation. */
  predicate AfterName(name: string, rest: string) {
    rest == "" || (!IsAlpha(rest[0]) && (name == "" ==> rest[0] != '<'))
  }

  lemma AlphaSpanOf(name: string, rest: string)
    requires AllAlpha(name) && (rest == "" || !IsAlpha(rest[0]))
    ensures AlphaSpan(name + rest) == |name|
  {
    var s := name + rest;
    assert forall k :: 0 <= k < |name| ==> s[k] == name[k];
    assert forall n :: |name| < n <= |s| ==> s[..n][|name|] == rest[0];
  }

  lemma ReadAbbrev(name: string, rest: string)
    requires '>' !in name && AfterName(name, rest) && name + rest != ""
    ensures ReadName(PrintAbbrev(name) + rest) == Some((name, rest))
  {
    if AllAlpha(name) {
      ReadPlainName(name, rest);
    } else {
      ReadQuotedName(name, rest);
    }
  }

  lemma ReadPlainName(name: string, rest: string)
    requires AllAlpha(name) && AfterName(name, rest) && name + rest != ""
    ensures ReadName(name + rest) == Some((name, rest))
  {
    hide AlphaSpan;
    var s := name + rest;
    AlphaSpanOf(name, rest);
    assert s[..|name|] == name && s[|name|..] == rest;
    if name != "" {
      assert s[0] == name[0];
    }
  }

  lemma ReadQuotedName(name: string, rest: string)
    requires '>' !in name
    ensures ReadName("<" + (name + ">") + rest) == Some((name, rest))
  {
    hide AlphaSpan, Find;
    var s, t := "<" + (name + ">") + rest, name + ['>'] + rest;
    assert s[1..] == t;
    FindAfter(name, '>', rest);
    assert t[..|name|] == name;
    assert t[|name| + 1..] == rest;
  }

  /** Text that may follow a printed rule. */
  predicate AfterRule(rest: string) {
    rest == "" || rest[0] == ','
  }

  lemma ReadModeBack(mode: Mode, rest: string)
    requires ModeOk(mode) && (AfterRule(rest) || rest[0] == '/')
    ensures ReadMode(PrintMode(mode) + rest) == Some((mode, rest))
  {
    hide ReadUnsigned, Digits;
    var s := PrintMode(mode) + rest;
    match mode {
      case J(n) =>
        SmallDigits(n);
        ReadUnsignedDigits(n, 3, rest);
        assert s[1..] == Digits(n) + rest;
      case N(n) =>
        SmallDigits(n);
        ReadUnsignedDigits(n, 3, rest);
        assert IsDigit(Digits(n)[0]);
      case M(m, n, wd) =>
        ReadMonthMode(m, n, wd, rest);
    }
  }

  lemma Regroup(a: string, b: string, c: string, rest: string)
    ensures "M" + (a + ("." + (b + ("." + c)))) + rest == "M" + (a + ("." + (b + ("." + (c + rest)))))
  {
    assert ("." + c) + rest == "." + (c + rest);
    assert (b + ("." + c)) + rest == b + ("." + (c + rest));
    assert ("." + (b + ("." + c))) + rest == "." + (b + ("." + (c + rest)));
    assert (a + ("." + (b + ("." + c)))) + rest == a + ("." + (b + ("." + (c + rest))));
  }

  lemma ReadMonthMode(m: nat, n: nat, wd: nat, rest: string)
    requires 1 <= m <= 12 && 1 <= n <= 5 && wd < 7
    ensures ReadMode(PrintMode(M(m, n, wd)) + rest) == Some((M(m, n, wd), rest))
  {
    hide ReadUnsigned, Digits;
    var s3 := Digits(wd) + rest;
    var s2 := "." + s3;
    var s1 := "." + (Digits(n) + s2);
    var s := PrintMode(M(m, n, wd)) + rest;
    Regroup(Digits(m), Digits(n), Digits(wd), rest);
    assert s == "M" + (Digits(m) + s1);
    assert s[1..] == Digits(m) + s1;
    SmallDigits(m);
    SmallDigits(n);
    SmallDigits(wd);
    ReadUnsignedDigits(m, 2, s1);
    assert s1[1..] == Digits(n) + s2;
    ReadUnsignedDigits(n, 1, s2);
    assert s2[1..] == s3;
    ReadUnsignedDigits(wd, 1, rest);
  }

  lemma ReadRule(r: Rule, rest: string)
    requires RuleOk(r) && AfterRule(rest)
    ensures ReadDate(PrintRule(r) + rest) == Some((r, rest))
  {
    hide ReadMode, ReadUnsignedTime, PrintMode, PrintTime;
    if r.time != 2 * HOUR {
      var tail := "/" + (PrintTime(r.time) + rest);
      assert PrintRule(r) + rest == PrintMode(r.mode) + tail;
      ReadModeBack(r.mode, tail);
      ReadTime(r.time, rest);
      assert tail[1..] == PrintTime(r.time) + rest;
    } else {
      assert PrintRule(r) + rest == PrintMode(r.mode) + rest;
      ReadModeBack(r.mode, rest);
    }
  }

  lemma ReadRulesBack(start: Rule, end: Rule)
    requires RuleOk(start) && RuleOk(end)
    ensures ReadRules("," + (PrintRule(start) + ("," + PrintRule(end)))) == Some((start, end))
  {
    hide ReadDate, PrintRule, ModeOk;
    var s2 := "," + PrintRule(end);
    var s := "," + (PrintRule(start) + s2);
    assert s[1..] == PrintRule(start) + s2;
    ReadRule(start, s2);
    assert s2[1..] == PrintRule(end) + "";
    ReadRule(end, "");
  }

  // ----- The round trip -----

  lemma ReadSaveBack(z: Zone)
    requires Canonical(z) && SaveText(z) + RulesText(z) != ""
    ensures ReadSave(SaveText(z) + RulesText(z), z.offset) == Some((z.save, RulesText(z)))
    ensures var s := SaveText(z) + RulesText(z); s[0] == ',' || s[0] == '-' || IsDigit(s[0])
  {
    hide ReadSignedTime, PrintOffset, PrintRule, ModeOk;
    if z.save != HOUR {
      ReadOffset(z.offset + z.save, RulesText(z));
    } else {
      assert SaveText(z) + RulesText(z) == RulesText(z);
    }
  }

  lemma PrintAbbrevStart(name: string, rest: string)
    requires name != ""
    ensures var s := PrintAbbrev(name) + rest; s != "" && (IsAlpha(s[0]) || s[0] == '<')
  {
    if AllAlpha(name) {
      assert (PrintAbbrev(name) + rest)[0] == name[0];
    }
  }

  /** Printing a canonical zone and reading it back restores it. */
  lemma NameReadsBack(z: Zone)
    requires Canonical(z)
    ensures Parse(Name(z)) == Some(z)
  {
    hide ReadName, ReadSignedTime, ReadSave, ReadRules, PrintAbbrev, PrintOffset, PrintRule, ModeOk;
    var dst := PrintDst(z);
    var tail := SaveText(z) + RulesText(z);
    if z.dst != "" {
      PrintAbbrevStart(z.dst, tail);
      if z.save != HOUR {
        ReadOffset(z.offset + z.save, RulesText(z));
      }
      if tail != "" {
        ReadSaveBack(z);
      }
      ReadAbbrev(z.dst, tail);
    }
    ReadOffset(z.offset, dst);
    ReadAbbrev(z.std, PrintOffset(z.offset) + dst);
    if z.start.mode != Off {
      ReadRulesBack(z.start, z.end);
    }
  }

  /** Parser and printer undo each other: a name restores the zone of any accepted text. */
  lemma RoundTrip(s: string)
    requires Parse(s).Some?
    ensures Canonical(Parse(s).value)
    ensures Parse(Name(Parse(s).value)) == Parse(s)
  {
    hide Parse, Name;
    AcceptedIsCanonical(s);
    NameReadsBack(Parse(s).value);
  }

  /** Names tell canonical zones apart. */
  lemma NamesAreDistinct(z: Zone, z': Zone)
    requires Canonical(z) && Canonical(z') && Name(z) == Name(z')
    ensures z == z'
  {
    hide Parse, Name, Canonical;
    NameReadsBack(z);
    NameReadsBack(z');
  }

  /** Every accepted zone has offsets in the range the period theorems ask for, and both rules or neither. */
  lemma AcceptedInRange(s: string)
    requires Parse(s).Some?
    ensures var z := Parse(s).value; OffsetsInRange(z) && (HasRules(z) <==> z.start.mode != Off)
  {
    hide Parse;
    AcceptedIsCanonical(s);
  }

  /** The zone for which three days do not suffice is one the constructor makes. */
  lemma WideAccepted()
    ensures Parse(Name(WIDE)) == Some(WIDE)
  {
    hide Parse, Name;
    assert AllAlpha("AAA") && AllAlpha("BBB");
    NameReadsBack(WIDE);
  }

  // ----- The two loops, on an index into the whole text -----

  lemma ValueStep(s: string, i: nat, j: nat)
    requires i <= j < |s| && AllDigits(s[i..j + 1])
    ensures AllDigits(s[i..j]) && Value(s[i..j + 1]) == Value(s[i..j]) * 10 + DigitValue(s[j])
  {
    var t := s[i..j + 1];
    assert t[..|t| - 1] == s[i..j] && t[|t| - 1] == s[j];
    assert forall k :: 0 <= k < j - i ==> s[i..j][k] == t[k];
  }

  /** `read_unsigned`. */
  method ReadUnsignedAt(s: string, i: nat, limit: nat) returns (ok: bool, next: nat, u: nat)
    requires i <= |s| && limit >= 1
    ensures ok <==> ReadUnsigned(s[i..], limit).Some?
    ensures ok ==> next <= |s| && ReadUnsigned(s[i..], limit) == Some((u, s[next..]))
  {
    next, u := i, 0;
    if i == |s| || !IsDigit(s[i]) {
      return false, next, u;
    }
    u := DigitValue(s[i]);
    var count := 1;
    next := i + 1;
    assert s[i..i + 1][..0] == "";
    while count < limit && next != |s| && IsDigit(s[next])
      invariant i < next <= |s| && count == next - i <= limit
      invariant AllDigits(s[i..next]) && Value(s[i..next]) == u
    {
      assert s[i..next + 1] == s[i..next] + [s[next]];
      ValueStep(s, i, next);
      u := u * 10 + DigitValue(s[next]);
      next, count := next + 1, count + 1;
    }
    ok := true;
    ghost var t, run := s[i..], s[i..next];
    assert t[0..|run|] == run == t[..|run|] && t[|run|..] == s[next..];
    SpanOfRun(t, 0, run, limit);
  }

  lemma FindFirst(s: string, c: char, k: nat)
    requires k <= |s| && c !in s[..k] && (k < |s| ==> s[k] == c)
    ensures Find(s, c) == k
  {
    assert forall j :: 0 <= j < k ==> s[..k][j] == s[j];
    assert forall j :: k < j <= |s| ==> s[..j][k] == s[k];
  }

  lemma AlphaFirst(s: string, k: nat)
    requires k <= |s| && AllAlpha(s[..k]) && (k < |s| ==> !IsAlpha(s[k]))
    ensures AlphaSpan(s) == k
  {
    assert forall j :: 0 <= j < k ==> s[..k][j] == s[j];
    assert forall j :: k < j <= |s| ==> s[..j][k] == s[k];
  }

  /** `read_name`. */
  method ReadNameAt(s: string, i: nat) returns (ok: bool, next: nat, name: string)
    requires i <= |s|
    ensures ok <==> ReadName(s[i..]).Some?
    ensures ok ==> next <= |s| && ReadName(s[i..]) == Some((name, s[next..]))
  {
    next, name := i, "";
    if i == |s| {
      return false, next, name;
    }
    ghost var t := s[i..];
    if s[i] == '<' {
      next := i + 1;
      while next < |s| && s[next] != '>'
        invariant i < next <= |s| && name == s[i + 1..next] && '>' !in name
      {
        name := name + [s[next]];
        next := next + 1;
      }
      assert t[1..] == s[i + 1..] && t[1..][..|name|] == name;
      FindFirst(t[1..], '>', |name|);
      if next == |s| {
        return false, next, name;
      }
      next := next + 1;
      assert t[1..][|name| + 1..] == s[next..];
    } else {
      while next != |s| && IsAlpha(s[next])
        invariant i <= next <= |s| && name == s[i..next] && AllAlpha(name)
      {
        name := name + [s[next]];
        next := next + 1;
      }
      assert t[..|name|] == name && t[|name|..] == s[next..];
      AlphaFirst(t, |name|);
    }
    ok := true;
  }
}
