/** Decimal text: `std::to_string`, digit runs, `std::stoll`, and the string helpers of HttpUtils. */
module Text {

  /** Usable with `:-`: None stands for a thrown exception. */
  datatype Option<+T> = None | Some(value: T) {
    predicate IsFailure() {
      None?
    }

    function PropagateFailure<U>(): Option<U>
      requires None?
    {
      None
    }

    function Extract(): T
      requires Some?
    {
      value
    }
  }

  predicate IsDigit(c: char) {
    '0' <= c <= '9'
  }

  function DigitValue(c: char): nat
    requires IsDigit(c)
  {
    c as int - '0' as int
  }

  predicate AllDigits(s: string) {
    forall i :: 0 <= i < |s| ==> IsDigit(s[i])
  }

  /** The decimal digits of a natural number, most significant first. */
  function Digits(n: nat): (s: string)
    ensures |s| >= 1 && AllDigits(s)
  {
    var last := ['0' + (n % 10) as char];
    if n < 10 then last else Digits(n / 10) + last
  }

  /** `std::to_string` of an integer. */
  function Decimal(n: int): string {
    if n < 0 then "-" + Digits(-n) else Digits(n)
  }

  /** The number a run of digits denotes, read left to right. */
  function Value(s: string): nat
    requires AllDigits(s)
  {
    if s == "" then 0 else Value(s[..|s| - 1]) * 10 + DigitValue(s[|s| - 1])
  }

  lemma {:induction false} ValueOfDigits(n: nat)
    ensures Value(Digits(n)) == n
  {
    var s := Digits(n);
    if n < 10 {
      assert s[..0] == "";
    } else {
      ValueOfDigits(n / 10);
      assert s[..|s| - 1] == Digits(n / 10);
    }
  }

  lemma {:induction false} ValueLeadingZero(s: string)
    requires AllDigits(s)
    ensures AllDigits("0" + s) && Value("0" + s) == Value(s)
  {
    var t := "0" + s;
    if s == "" {
      assert t[..0] == "";
    } else {
      ValueLeadingZero(s[..|s| - 1]);
      assert t[..|t| - 1] == "0" + s[..|s| - 1];
    }
  }

  /** Digits in a row from index `i`, at most `limit` of them. */
  function DigitSpan(s: string, i: nat, limit: nat): (n: nat)
    ensures n <= limit && (i <= |s| ==> i + n <= |s|)
    ensures forall k :: i <= k < i + n ==> k < |s| && IsDigit(s[k])
    ensures i + n < |s| && n < limit ==> !IsDigit(s[i + n])
    decreases limit
  {
    if limit == 0 || i >= |s| || !IsDigit(s[i]) then 0 else 1 + DigitSpan(s, i + 1, limit - 1)
  }

  lemma {:induction false} SpanOfRun(s: string, i: nat, run: string, limit: nat)
    requires AllDigits(run) && |run| <= limit
    requires i + |run| <= |s| && s[i..i + |run|] == run
    requires |run| == limit || i + |run| == |s| || !IsDigit(s[i + |run|])
    ensures DigitSpan(s, i, limit) == |run|
  {
    forall k | i <= k < i + |run|
      ensures IsDigit(s[k])
    {
      assert s[k] == run[k - i];
    }
  }

  // ----- std::stoll -----

  predicate IsSpace(c: char) {
    c == ' ' || '\t' <= c <= '\r'
  }

  /** The characters of `isspace`: space, tab, line feed, vertical tab, form feed, carriage return. */
  lemma SpaceCharacters(c: char)
    ensures IsSpace(c) <==> c in {' ', '\t', '\n', '\U{0B}', '\U{0C}', '\r'}
  {
    assert c as int == 9 ==> c == '\t';
    assert c as int == 13 ==> c == '\r';
    assert c as int == 10 ==> c == '\n';
    assert c as int == 11 ==> c == '\U{0B}';
    assert c as int == 12 ==> c == '\U{0C}';
  }

  function SkipSpaces(s: string): string {
    if s != "" && IsSpace(s[0]) then SkipSpaces(s[1..]) else s
  }

  /** `std::stoll`: None where it throws. Text after the digits is ignored. */
  function Stoll(s: string): Option<int> {
    var t := SkipSpaces(s);
    var start := if t != "" && (t[0] == '-' || t[0] == '+') then 1 else 0;
    var n := DigitSpan(t, start, |t|);
    if n == 0 then None
    else
      var v: int := Value(t[start..start + n]);
      var r := if t[0] == '-' then -v else v;
      if -0x8000_0000_0000_0000 <= r < 0x8000_0000_0000_0000 then Some(r) else None
  }

  lemma StollOfDigits(s: string)
    requires AllDigits(s) && s != "" && Value(s) < 0x8000_0000_0000_0000
    ensures Stoll(s) == Some(Value(s) as int)
  {
    hide Value;
    SpanOfRun(s, 0, s, |s|);
    assert s[0..|s|] == s;
    assert IsDigit(s[0]);
    assert SkipSpaces(s) == s;
  }

  lemma StollOfNegative(s: string)
    requires AllDigits(s) && s != "" && Value(s) < 0x8000_0000_0000_0000
    ensures var v: int := Value(s); Stoll("-" + s) == Some(-v)
  {
    hide Value;
    var t := "-" + s;
    SpanOfRun(t, 1, s, |t|);
    assert t[1..1 + |s|] == s;
    assert SkipSpaces(t) == t;
  }

  /** Printing and reading back, also after padding with a zero. */
  lemma StollOfDecimal(n: int)
    requires -0x8000_0000_0000_0000 < n < 0x8000_0000_0000_0000
    ensures Stoll(Decimal(n)) == Some(n)
    ensures Stoll(LeftPad(Decimal(n), 2, '0')) == Some(n)
  {
    hide Stoll, Value;
    if n < 0 {
      ValueOfDigits(-n);
      StollOfNegative(Digits(-n));
    } else {
      var d := Digits(n);
      ValueOfDigits(n);
      StollOfDigits(d);
      if |d| < 2 {
        ValueLeadingZero(d);
        StollOfDigits("0" + d);
        assert Repeat('0', 1) == "0";
      }
    }
  }

  predicate AllSpaces(s: string) {
    forall i :: 0 <= i < |s| ==> IsSpace(s[i])
  }

  lemma {:induction false} SkipsSpaces(space: string, s: string)
    requires AllSpaces(space) && (s == "" || !IsSpace(s[0]))
    ensures SkipSpaces(space + s) == s
  {
    if space == "" {
      assert space + s == s;
    } else {
      assert (space + s)[1..] == space[1..] + s;
      SkipsSpaces(space[1..], s);
    }
  }

  /** Leading spaces, one sign, a digit run, and whatever follows: the number, or None when it needs more than 64 bits. */
  lemma StollReads(space: string, sign: string, digits: string, rest: string)
    requires AllSpaces(space) && sign in {"", "+", "-"} && AllDigits(digits) && digits != ""
    requires rest == "" || !IsDigit(rest[0])
    ensures var v: int := Value(digits);
            var r := if sign == "-" then -v else v;
            Stoll(space + (sign + (digits + rest)))
            == if -0x8000_0000_0000_0000 <= r < 0x8000_0000_0000_0000 then Some(r) else None
  {
    hide Value, SkipSpaces, DigitSpan, AllSpaces;
    var t := sign + (digits + rest);
    assert IsDigit(digits[0]);
    RunInside(sign, digits, rest);
    SignStart(sign, digits[0], t);
    hide IsDigit, IsSpace, AllDigits;
    SkipsSpaces(space, t);
    StollOfRun(space + t, t, |sign|, digits);
  }

  /** `Stoll` on the text after the spaces, from where its digits start. */
  lemma StollOfRun(s: string, t: string, start: nat, digits: string)
    requires SkipSpaces(s) == t && t != "" && AllDigits(digits) && digits != ""
    requires start == if t[0] == '-' || t[0] == '+' then 1 else 0
    requires start + |digits| <= |t| && DigitSpan(t, start, |t|) == |digits|
    requires t[start..start + |digits|] == digits
    ensures var v: int := Value(digits);
            var r := if t[0] == '-' then -v else v;
            Stoll(s) == if -0x8000_0000_0000_0000 <= r < 0x8000_0000_0000_0000 then Some(r) else None
  {
    hide Value, SkipSpaces, DigitSpan, AllDigits;
  }

  lemma SignStart(sign: string, c: char, t: string)
    requires sign in {"", "+", "-"} && IsDigit(c) && t != "" && t[0] == if sign == "" then c else sign[0]
    ensures |sign| == if t[0] == '-' || t[0] == '+' then 1 else 0
    ensures (sign == "-" <==> t[0] == '-') && !IsSpace(t[0])
  {
  }

  lemma RunInside(sign: string, digits: string, rest: string)
    requires AllDigits(digits) && digits != "" && (rest == "" || !IsDigit(rest[0]))
    ensures var t := sign + (digits + rest);
            t[|sign|..|sign| + |digits|] == digits && DigitSpan(t, |sign|, |t|) == |digits|
            && t[0] == if sign == "" then digits[0] else sign[0]
  {
    hide DigitSpan;
    var t := sign + (digits + rest);
    assert t == sign + digits + rest;
    SpanOfRun(t, |sign|, digits, |t|);
  }

  /** No digit after the spaces and the sign: None. */
  lemma StollRejects(space: string, sign: string, rest: string)
    requires AllSpaces(space) && sign in {"", "+", "-"}
    requires rest == "" || !(IsDigit(rest[0]) || (sign == "" && (IsSpace(rest[0]) || rest[0] == '+' || rest[0] == '-')))
    ensures Stoll(space + (sign + rest)) == None
  {
    var t := sign + rest;
    assert sign == "" ==> t == rest;
    SkipsSpaces(space, t);
  }

  /** `Digits` writes no leading zero. */
  lemma {:induction false} NoLeadingZero(n: nat)
    ensures Digits(n)[0] == '0' <==> n == 0
    ensures |Digits(n)| == 1 <==> n < 10
  {
    if n >= 10 {
      NoLeadingZero(n / 10);
      assert Digits(n)[0] == Digits(n / 10)[0];
    }
  }

  // ----- HttpUtils -----

  function Repeat(c: char, n: nat): string {
    seq(n, _ => c)
  }

  function LeftPad(s: string, count: nat, c: char): string {
    if |s| >= count then s else Repeat(c, count - |s|) + s
  }

  /** Position of the first `c`, or the length. */
  function Find(s: string, c: char): (i: nat)
    ensures i <= |s| && c !in s[..i] && (i < |s| ==> s[i] == c)
  {
    if s == "" then 0 else if s[0] == c then 0 else
      var i := Find(s[1..], c);
      assert s[..i + 1] == [s[0]] + s[1..][..i];
      1 + i
  }

  lemma FindAfter(a: string, c: char, b: string)
    requires c !in a
    ensures Find(a + [c] + b, c) == |a|
  {
    var s := a + [c] + b;
    assert s[|a|] == c;
    assert forall k :: 0 <= k < |a| ==> s[k] == a[k];
    assert forall i :: |a| < i <= |s| ==> s[..i][|a|] == c;
  }

  lemma FindNone(a: string, c: char)
    requires c !in a
    ensures Find(a, c) == |a|
  {
  }

  /** `SplitString` with a one-character delimiter and no limit. */
  function Split(s: string, c: char): seq<string> {
    var i := Find(s, c);
    if i == |s| then [s] else [s[..i]] + Split(s[i + 1..], c)
  }

  lemma SplitJoin(a: string, c: char, b: string)
    requires c !in a
    ensures Split(a + [c] + b, c) == [a] + Split(b, c)
  {
    var s := a + [c] + b;
    FindAfter(a, c, b);
    assert s[..|a|] == a && s[|a| + 1..] == b;
  }

  /** Without the delimiter there is one piece. */
  lemma SplitOnce(a: string, c: char)
    requires c !in a
    ensures Split(a, c) == [a]
  {
    FindNone(a, c);
  }
}
