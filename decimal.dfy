/**
  Decimal text for integers: what `printf("%d")` writes and what successive
  `scanf("%d")` calls read back.  The match runner (02-Gamatach/gamatch.c) sends the
  board in this form and the centre agent (01-Arena/agents/agent_center.c) reads it.
*/
module Decimal {
  import opened Wrappers

  predicate IsDigit(ch: char) {
    '0' <= ch <= '9'
  }

  /** The white-space characters of C's `isspace`, which `%d` skips. */
  predicate IsSpace(ch: char) {
    ch == ' ' || ch == '\t' || ch == '\n' || ch == '\r' || ch as int == 11 || ch as int == 12
  }

  function DigitChar(d: int): (ch: char)
    requires 0 <= d < 10
    ensures IsDigit(ch) && ch as int - '0' as int == d
  {
    ('0' as int + d) as char
  }

  /** The digits of `n`, most significant first, with no leading zero. */
  function NatToString(n: nat): (s: string)
    ensures |s| >= 1
    ensures forall i :: 0 <= i < |s| ==> IsDigit(s[i])
    decreases n
  {
    if n < 10 then [DigitChar(n)] else NatToString(n / 10) + [DigitChar(n % 10)]
  }

  /** `printf("%d", n)`: a minus sign for a negative number, then its digits. */
  function IntToString(n: int): (s: string)
    ensures |s| >= 1 && (IsDigit(s[0]) || s[0] == '-')
    ensures forall i :: 0 <= i < |s| ==> !IsSpace(s[i])
  {
    if n < 0 then "-" + NatToString(-n) else NatToString(n)
  }

  function DigitValue(ch: char): nat
    requires IsDigit(ch)
  {
    ch as int - '0' as int
  }

  /** The value of a string of decimal digits. */
  function ParseNat(s: string): nat
    requires forall i :: 0 <= i < |s| ==> IsDigit(s[i])
  {
    if s == [] then 0 else ParseNat(s[..|s| - 1]) * 10 + DigitValue(s[|s| - 1])
  }

  lemma {:induction false} ParseNatToString(n: nat)
    ensures ParseNat(NatToString(n)) == n
    decreases n
  {
    if n >= 10 {
      var s := NatToString(n);
      assert s[..|s| - 1] == NatToString(n / 10);
      ParseNatToString(n / 10);
    }
  }

  /** The number of leading digits of `s`. */
  function DigitRun(s: string): (n: nat)
    ensures n <= |s|
    ensures forall i :: 0 <= i < n ==> IsDigit(s[i])
    ensures n < |s| ==> !IsDigit(s[n])
  {
    if s != [] && IsDigit(s[0]) then 1 + DigitRun(s[1..]) else 0
  }

  /** `s` without its leading white space. */
  function SkipSpace(s: string): (t: string)
    ensures |t| <= |s| && t == s[|s| - |t|..]
    ensures t != [] ==> !IsSpace(t[0])
  {
    if s != [] && IsSpace(s[0]) then SkipSpace(s[1..]) else s
  }

  /** The length of the sign a `%d` conversion accepts at the start of `t`. */
  function SignLength(t: string): (k: nat)
    ensures k <= 1 && k <= |t|
  {
    if t != [] && (t[0] == '-' || t[0] == '+') then 1 else 0
  }

  /**
    How many characters of `t` a `%d` conversion takes once the white space is
    skipped: an optional sign and then at least one digit; 0 when there is no number.
  */
  function NumberLength(t: string): (n: nat)
    ensures n <= |t|
  {
    var digits := DigitRun(t[SignLength(t)..]);
    if digits == 0 then 0 else SignLength(t) + digits
  }

  /** The value of the number at the start of `t`. */
  function NumberValue(t: string): int
    requires NumberLength(t) > 0
  {
    var k := SignLength(t);
    var magnitude := ParseNat(t[k..NumberLength(t)]);
    if t[0] == '-' then -(magnitude as int) else magnitude
  }

  /** What one `scanf("%d")` call leaves: the int it stores, if it converts one, and the text still unread. */
  datatype Conversion = Conversion(value: Option<int>, rest: string)

  /**
    One `scanf("%d")` call on the unread text `s`.  It skips white space and takes the
    longest run that is, or begins, an optionally signed number: a number is converted;
    a lone sign is consumed and the conversion fails; any other character stays unread,
    so every later call fails on it too; at the end of the text the call fails.
    Overflow of `int` is not modelled.
  */
  function ScanInt(s: string): (c: Conversion)
    ensures |c.rest| <= |s|
    ensures c.value.Some? ==> |c.rest| < |s|
  {
    var t := SkipSpace(s);
    var n := NumberLength(t);
    if n > 0 then Conversion(Some(NumberValue(t)), t[n..])
    else if SignLength(t) == 1 then Conversion(None, t[1..])
    else Conversion(None, t)
  }

  /** What `n` successive `scanf("%d")` calls convert from `s`: one entry per call, `None` where it fails. */
  function ScanInts(s: string, n: nat): (xs: seq<Option<int>>)
    ensures |xs| == n
  {
    if n == 0 then [] else var c := ScanInt(s); [c.value] + ScanInts(c.rest, n - 1)
  }

  /** What a `scanf("%d")` conversion leaves in its variable, which held `prior`: unchanged when it fails. */
  function Stored(x: Option<int>, prior: int): int {
    if x.Some? then x.value else prior
  }

  /** Each of `xs`, converted. */
  function Converted(xs: seq<int>): (ys: seq<Option<int>>)
    ensures |ys| == |xs| && forall i :: 0 <= i < |xs| ==> ys[i] == Some(xs[i])
  {
    if xs == [] then [] else [Some(xs[0])] + Converted(xs[1..])
  }

  /** The text `printf("%d ")` writes for each of `xs` in turn. */
  function IntsText(xs: seq<int>): string {
    if xs == [] then "" else IntToString(xs[0]) + " " + IntsText(xs[1..])
  }

  /** Leading white space does not change what `scanf("%d")` converts. */
  lemma ScanSpace(rest: string)
    ensures ScanInt(" " + rest) == ScanInt(rest)
  {
    assert (" " + rest)[1..] == rest;
    assert SkipSpace(" " + rest) == SkipSpace(rest);
  }

  lemma ScansSpace(rest: string, n: nat)
    ensures ScanInts(" " + rest, n) == ScanInts(rest, n)
  {
    if n > 0 {
      ScanSpace(rest);
    }
  }

  /** `scanf("%d")` converts the number `printf("%d")` wrote, and stops at the first character after it. */
  lemma ScanNumber(x: int, rest: string)
    requires rest == [] || !IsDigit(rest[0])
    ensures ScanInt(IntToString(x) + rest) == Conversion(Some(x), rest)
  {
    var s := IntToString(x) + rest;
    var n := NumberAt(x, rest);
    assert SkipSpace(s) == s;
  }

  /** The number at the front of the text of `x` followed by `rest` is `x`, and it ends where `rest` starts. */
  lemma NumberAt(x: int, rest: string) returns (n: nat)
    requires rest == [] || !IsDigit(rest[0])
    ensures var s := IntToString(x) + rest;
      n == |IntToString(x)| && NumberLength(s) == n > 0 && NumberValue(s) == x && s[n..] == rest
  {
    var s := IntToString(x) + rest;
    var m: nat := if x < 0 then -x else x;
    var digits := NatToString(m);
    var k := if x < 0 then 1 else 0;
    assert SignLength(s) == k;
    assert s[k..] == digits + rest;
    DigitRunStops(digits, rest);
    n := k + |digits|;
    assert NumberLength(s) == n;
    assert s[k..n] == digits;
    ParseNatToString(m);
  }

  /** `scanf("%d")` converts the number `printf("%d ")` wrote, and stops at the space. */
  lemma ScanOne(x: int, rest: string)
    ensures ScanInt(IntToString(x) + " " + rest) == Conversion(Some(x), " " + rest)
  {
    assert IntToString(x) + " " + rest == IntToString(x) + (" " + rest);
    ScanNumber(x, " " + rest);
  }

  /**
    A sign with no digit after it is consumed by a conversion that fails, so the next
    `scanf("%d")` goes on after the sign.
  */
  lemma ScanLoneSign(sign: char, rest: string)
    requires sign == '-' || sign == '+'
    requires rest == [] || !IsDigit(rest[0])
    ensures ScanInt([sign] + rest) == Conversion(None, rest)
  {
    var s := [sign] + rest;
    assert !IsSpace(s[0]);
    assert SkipSpace(s) == s;
    assert SignLength(s) == 1;
    assert s[1..] == rest;
    assert DigitRun(rest) == 0;
    assert NumberLength(s) == 0;
  }

  /** `n` conversions that all fail. */
  function Failures(n: nat): (xs: seq<Option<int>>)
    ensures |xs| == n && forall i :: 0 <= i < n ==> xs[i] == None
  {
    if n == 0 then [] else [None] + Failures(n - 1)
  }

  /** `t` starts with neither white space, a sign nor a digit: `%d` cannot take anything there. */
  predicate Stuck(t: string) {
    t == [] || (!IsSpace(t[0]) && !IsDigit(t[0]) && t[0] != '-' && t[0] != '+')
  }

  /**
    At the end of the text, or at a character that is neither white space, a sign nor a
    digit, `scanf("%d")` fails without taking anything, and so does every later call.
  */
  lemma {:induction false} ScanStuck(s: string, n: nat)
    requires Stuck(SkipSpace(s))
    ensures ScanInts(s, n) == Failures(n)
  {
    if n > 0 {
      var t := StuckOnce(s);
      ScanStuck(t, n - 1);
    }
  }

  lemma StuckOnce(s: string) returns (t: string)
    requires Stuck(SkipSpace(s))
    ensures t == SkipSpace(s) && ScanInt(s) == Conversion(None, t) && Stuck(SkipSpace(t))
  {
    t := SkipSpace(s);
    assert t != [] ==> SignLength(t) == 0 && DigitRun(t) == 0;
    assert NumberLength(t) == 0;
    assert SkipSpace(t) == t;
  }

  lemma {:induction false} DigitRunStops(digits: string, rest: string)
    requires forall i :: 0 <= i < |digits| ==> IsDigit(digits[i])
    requires rest == [] || !IsDigit(rest[0])
    ensures DigitRun(digits + rest) == |digits|
  {
    if digits == [] {
      assert digits + rest == rest;
    } else {
      assert (digits + rest)[1..] == digits[1..] + rest;
      DigitRunStops(digits[1..], rest);
    }
  }

  /** `|xs|` conversions of the text of `xs` written by `printf("%d ")`, then a newline, give back `xs`. */
  lemma {:induction false} ScanIntsText(xs: seq<int>)
    ensures ScanInts(IntsText(xs) + "\n", |xs|) == Converted(xs)
  {
    if xs != [] {
      var rest := IntsText(xs[1..]) + "\n";
      assert IntsText(xs) + "\n" == IntToString(xs[0]) + " " + rest;
      ScansOne(xs[0], rest, |xs| - 1);
      ScanIntsText(xs[1..]);
    }
  }

  /** The first of `n + 1` conversions takes the number `printf("%d ")` wrote; the others go on after it. */
  lemma ScansOne(x: int, rest: string, n: nat)
    ensures ScanInts(IntToString(x) + " " + rest, n + 1) == [Some(x)] + ScanInts(rest, n)
  {
    ScanOne(x, rest);
    ScansSpace(rest, n);
  }

  /** The lone sign costs the conversion that consumes it; the next conversion starts after it. */
  lemma ScansLoneSign(sign: char, rest: string, n: nat)
    requires sign == '-' || sign == '+'
    requires rest == [] || !IsDigit(rest[0])
    ensures ScanInts([sign] + rest, n + 1) == [None] + ScanInts(rest, n)
  {
    ScanLoneSign(sign, rest);
  }

  /** Writing one more number appends its text. */
  lemma {:induction false} IntsTextAppend(xs: seq<int>, x: int)
    ensures IntsText(xs + [x]) == IntsText(xs) + IntToString(x) + " "
  {
    if xs != [] {
      assert (xs + [x])[1..] == xs[1..] + [x];
      IntsTextAppend(xs[1..], x);
    }
  }

  /** The text of one more element of `xs`. */
  lemma IntsTextPrefix(xs: seq<int>, k: int)
    requires 0 <= k < |xs|
    ensures IntsText(xs[..k + 1]) == IntsText(xs[..k]) + IntToString(xs[k]) + " "
  {
    assert xs[..k + 1] == xs[..k] + [xs[k]];
    IntsTextAppend(xs[..k], xs[k]);
  }

  /** Numbers of one digit each take two characters of `printf("%d ")` text. */
  lemma {:induction false} IntsTextLength(xs: seq<int>)
    requires forall i :: 0 <= i < |xs| ==> 0 <= xs[i] < 10
    ensures |IntsText(xs)| == 2 * |xs|
  {
    if xs != [] {
      IntsTextLength(xs[1..]);
    }
  }
}
