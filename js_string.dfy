/** The two string operations of the JavaScript runtime that the booking page relies on:
    `String.prototype.trim` and the decimal text of an integral number (template-literal
    interpolation, `${n}`). */
module JsString {

  /** The characters `trim` removes: ECMAScript WhiteSpace (TAB, VT, FF, SPACE, NO-BREAK SPACE,
      ZERO WIDTH NO-BREAK SPACE and every Unicode Space_Separator) and LineTerminator (LF, CR,
      LINE SEPARATOR, PARAGRAPH SEPARATOR). All of them lie in the Basic Multilingual Plane, so a
      code point and a UTF-16 code unit agree on them. */
  const Whitespace: set<char> := {
    '\t', '\n', '\U{000B}', '\U{000C}', '\r', ' ', '\U{00A0}', '\U{1680}',
    '\U{2000}', '\U{2001}', '\U{2002}', '\U{2003}', '\U{2004}', '\U{2005}', '\U{2006}',
    '\U{2007}', '\U{2008}', '\U{2009}', '\U{200A}',
    '\U{2028}', '\U{2029}', '\U{202F}', '\U{205F}', '\U{3000}', '\U{FEFF}'
  }

  predicate IsWhitespace(c: char) {
    c in Whitespace
  }

  predicate AllWhitespace(s: string) {
    AllIn(s, Whitespace)
  }

  /** Every character of `s` is one of `ws`. */
  predicate AllIn(s: string, ws: set<char>) {
    forall i :: 0 <= i < |s| ==> s[i] in ws
  }

  /** The first index at or after `i` whose character is not in `ws`, or `|s|` if there is none. */
  function SkipForward(s: string, ws: set<char>, i: nat): (k: nat)
    requires i <= |s|
    ensures i <= k <= |s|
    ensures forall j :: i <= j < k ==> s[j] in ws
    ensures k == |s| || s[k] !in ws
    decreases |s| - i
  {
    if i < |s| && s[i] in ws then SkipForward(s, ws, i + 1) else i
  }

  /** The least index `k` between `lo` and `j` such that every character of `s[k..j]` is in `ws`. */
  function SkipBackward(s: string, ws: set<char>, lo: nat, j: nat): (k: nat)
    requires lo <= j <= |s|
    ensures lo <= k <= j
    ensures forall m :: k <= m < j ==> s[m] in ws
    ensures k == lo || s[k - 1] !in ws
    decreases j
  {
    if lo < j && s[j - 1] in ws then SkipBackward(s, ws, lo, j - 1) else j
  }

  /** `String.prototype.trim`: empty exactly when `s` is all white space, and otherwise
      neither starting nor ending with white space. */
  function Trim(s: string): (r: string)
    ensures |r| <= |s|
    ensures r == [] <==> AllWhitespace(s)
    ensures r == [] || (!IsWhitespace(r[0]) && !IsWhitespace(r[|r| - 1]))
  {
    TrimBy(s, Whitespace)
  }

  /** `s` without its leading and trailing characters from `ws`: the part of `s` between a
      prefix and a suffix drawn from `ws`, empty exactly when all of `s` is drawn from `ws`, and
      otherwise starting and ending with characters outside `ws`. */
  function TrimBy(s: string, ws: set<char>): (r: string)
    ensures var k := SkipForward(s, ws, 0);
      && k + |r| <= |s| && r == s[k..k + |r|]
      && AllIn(s[..k], ws) && AllIn(s[k + |r|..], ws)
    ensures r == [] <==> AllIn(s, ws)
    ensures r == [] || (r[0] !in ws && r[|r| - 1] !in ws)
  {
    var start := SkipForward(s, ws, 0);
    var end := SkipBackward(s, ws, start, |s|);
    s[start..end]
  }

  /** A text that neither starts nor ends with white space is its own trim. */
  lemma TrimKeepsTrimmed(s: string)
    requires s == [] || (!IsWhitespace(s[0]) && !IsWhitespace(s[|s| - 1]))
    ensures Trim(s) == s
  {
    if s != [] {
      assert SkipForward(s, Whitespace, 0) == 0;
      assert SkipBackward(s, Whitespace, 0, |s|) == |s|;
    }
  }

  lemma TrimIdempotent(s: string)
    ensures Trim(Trim(s)) == Trim(s)
  {
    TrimKeepsTrimmed(Trim(s));
  }

  predicate IsDigit(c: char) {
    '0' <= c <= '9'
  }

  predicate AllDigits(s: string) {
    forall i :: 0 <= i < |s| ==> IsDigit(s[i])
  }

  function DigitValue(c: char): (d: nat)
    requires IsDigit(c)
  {
    c as int - '0' as int
  }

  function DigitChar(d: nat): (c: char)
    requires d < 10
    ensures IsDigit(c) && DigitValue(c) == d
  {
    ('0' as int + d) as char
  }

  /** The value of a run of decimal digits (the empty run reads as 0). */
  function ParseDigits(s: string): nat
    requires AllDigits(s)
  {
    if s == [] then 0 else 10 * ParseDigits(s[..|s| - 1]) + DigitValue(s[|s| - 1])
  }

  /** The decimal text of a non-negative integer: digits only, no leading zero. */
  function NatToString(n: nat): (r: string)
    ensures r != [] && AllDigits(r)
    ensures r == "0" <==> n == 0
    ensures r[0] == '0' ==> r == "0"
  {
    if n < 10 then [DigitChar(n)] else NatToString(n / 10) + [DigitChar(n % 10)]
  }

  lemma {:induction false} ParseNatToString(n: nat)
    ensures ParseDigits(NatToString(n)) == n
  {
    if n >= 10 {
      var r := NatToString(n);
      assert r[..|r| - 1] == NatToString(n / 10);
      ParseNatToString(n / 10);
    }
  }

  /** `${n}` for an integral number `n` (as long as it is written without exponent): the
      decimal digits, preceded by '-' when `n` is negative. */
  function IntToString(n: int): (r: string)
    ensures n >= 0 ==> AllDigits(r) && ParseDigits(r) == n
    ensures n < 0 ==> |r| >= 2 && r[0] == '-' && AllDigits(r[1..]) && ParseDigits(r[1..]) == -n
  {
    if n >= 0 then
      ParseNatToString(n);
      NatToString(n)
    else
      ParseNatToString(-n);
      assert ("-" + NatToString(-n))[1..] == NatToString(-n);
      "-" + NatToString(-n)
  }

  lemma IntToStringInjective(a: int, b: int)
    requires IntToString(a) == IntToString(b)
    ensures a == b
  {
  }

  /** A text ending in "-" and a run of digits splits there in one way only. */
  lemma {:induction false} SplitAtLastDash(a: string, x: string, b: string, y: string)
    requires AllDigits(x) && AllDigits(y)
    requires a + "-" + x == b + "-" + y
    ensures a == b && x == y
  {
    var s := a + "-" + x;
    assert s[|a|] == '-' && s[|b|] == '-';
    assert forall i :: |a| < i < |s| ==> IsDigit(s[i]);
    assert forall i :: |b| < i < |s| ==> IsDigit(s[i]);
    assert a == s[..|a|];
    assert b == s[..|b|];
    assert x == s[|a| + 1..];
    assert y == s[|b| + 1..];
  }
}
