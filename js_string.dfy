/**
 * The pieces of JavaScript's string behaviour the chat client relies on:
 * `String.prototype.trim` (ECMA-262, section 22.1.3.32), which strips the
 * WhiteSpace and LineTerminator code points of sections 12.2 and 12.3 from
 * both ends, and the decimal rendering of an integral Number used when a
 * number is interpolated into a template literal.
 *
 * A string is a sequence of code units, one `char` per unit, as JavaScript's
 * `length` and `substring` count them.
 */
module JsString {

  /** WhiteSpace (section 12.2) or LineTerminator (section 12.3) of ECMA-262. */
  predicate IsWhiteSpace(c: char) {
    || c == '\t' || c == '\U{000B}' || c == '\U{000C}' || c == ' '
    || c == '\U{00A0}' || c == '\U{FEFF}'
    // the other members of Unicode category Zs
    || c == '\U{1680}' || ('\U{2000}' <= c <= '\U{200A}')
    || c == '\U{202F}' || c == '\U{205F}' || c == '\U{3000}'
    // line terminators
    || c == '\n' || c == '\r' || c == '\U{2028}' || c == '\U{2029}'
  }

  predicate AllWhiteSpace(s: string) {
    forall k :: 0 <= k < |s| ==> IsWhiteSpace(s[k])
  }

  /** Every code unit of `s` at an index in [lo, hi) is white space. */
  predicate WhiteSpaceBetween(s: string, lo: nat, hi: nat)
    requires lo <= hi <= |s|
  {
    forall k :: lo <= k < hi ==> IsWhiteSpace(s[k])
  }

  predicate IsPrefix(p: string, s: string) {
    |p| <= |s| && p == s[..|p|]
  }

  /** The index of the first code unit of `s` that is not white space (|s| if none). */
  function LeadingEnd(s: string): (i: nat)
    ensures i <= |s| && WhiteSpaceBetween(s, 0, i)
    ensures i == |s| || !IsWhiteSpace(s[i])
  {
    if s == [] || !IsWhiteSpace(s[0]) then 0
    else
      var i := 1 + LeadingEnd(s[1..]);
      assert forall k :: 1 <= k < i ==> s[k] == s[1..][k - 1];
      i
  }

  /** The index just past the last code unit of `s` that is not white space (0 if none). */
  function TrailingStart(s: string): (j: nat)
    ensures j <= |s| && WhiteSpaceBetween(s, j, |s|)
    ensures j == 0 || !IsWhiteSpace(s[j - 1])
  {
    if s == [] || !IsWhiteSpace(s[|s| - 1]) then |s|
    else
      var j := TrailingStart(s[..|s| - 1]);
      assert forall k :: j <= k < |s| - 1 ==> s[k] == s[..|s| - 1][k];
      j
  }

  /**
   * `String.prototype.trim`: the slice of `s` that starts after its leading
   * white space and ends before its trailing white space.
   */
  function Trim(s: string): (r: string)
    ensures |r| <= |s|
    ensures r == [] || (!IsWhiteSpace(r[0]) && !IsWhiteSpace(r[|r| - 1]))
    ensures var i := LeadingEnd(s);
      && i + |r| <= |s| && r == s[i..i + |r|]
      && WhiteSpaceBetween(s, 0, i) && WhiteSpaceBetween(s, i + |r|, |s|)
    ensures r == [] <==> AllWhiteSpace(s)
  {
    var i := LeadingEnd(s);
    var j := TrailingStart(s);
    if j <= i then
      assert forall k :: 0 <= k < |s| ==> IsWhiteSpace(s[k]);
      []
    else s[i..j]
  }

  /**
   * Trim is fully determined by its contract: any slice `s[i..j]` that has
   * only white space around it and none at its ends is the trimmed string.
   */
  lemma TrimUnique(s: string, i: nat, j: nat)
    requires i <= j <= |s|
    requires WhiteSpaceBetween(s, 0, i) && WhiteSpaceBetween(s, j, |s|)
    requires i == j || (!IsWhiteSpace(s[i]) && !IsWhiteSpace(s[j - 1]))
    ensures Trim(s) == s[i..j]
  {
    var r := Trim(s);
    var p := LeadingEnd(s);
    if i < j {
      assert !AllWhiteSpace(s) by { assert !IsWhiteSpace(s[i]); }
      // s[i] is not white space, so the slice cannot start after i; and its
      // first code unit s[p] is not white space, so it cannot start before i
      assert !IsWhiteSpace(s[p]) by { assert r[0] == s[p]; }
      assert p == i;
      var q := p + |r|;
      assert !IsWhiteSpace(s[q - 1]) by { assert r[|r| - 1] == s[q - 1]; }
      assert q == j;
    } else {
      assert forall k :: 0 <= k < |s| ==> IsWhiteSpace(s[k]);
    }
  }

  /** Trimming twice is the same as trimming once. */
  lemma TrimIdempotent(s: string)
    ensures Trim(Trim(s)) == Trim(s)
  {
    var r := Trim(s);
    TrimUnique(r, 0, |r|);
    assert r[0..|r|] == r;
  }

  predicate IsDigit(c: char) {
    '0' <= c <= '9'
  }

  predicate AllDigits(s: string) {
    forall k :: 0 <= k < |s| ==> IsDigit(s[k])
  }

  function DigitChar(d: nat): (c: char)
    requires d < 10
    ensures IsDigit(c) && (c as int) - ('0' as int) == d
  {
    ('0' as int + d) as char
  }

  /** The decimal digits of `n`, most significant first, without leading zeros. */
  function NatToString(n: nat): (r: string)
    ensures |r| >= 1 && AllDigits(r)
    ensures r[0] == '0' ==> r == "0"
    decreases n
  {
    if n < 10 then [DigitChar(n)]
    else
      var r := NatToString(n / 10) + [DigitChar(n % 10)];
      assert r[0] == NatToString(n / 10)[0];
      r
  }

  /** The number a string of decimal digits denotes. */
  function DigitsValue(s: string): nat
    requires AllDigits(s)
    decreases |s|
  {
    if s == [] then 0
    else 10 * DigitsValue(s[..|s| - 1]) + ((s[|s| - 1] as int) - ('0' as int))
  }

  lemma {:induction false} NatToStringRoundTrip(n: nat)
    ensures DigitsValue(NatToString(n)) == n
    decreases n
  {
    if n >= 10 {
      var r := NatToString(n);
      assert r[..|r| - 1] == NatToString(n / 10);
      NatToStringRoundTrip(n / 10);
    }
  }

  /**
   * How an integral Number of magnitude at most 2^53 is written in a template
   * literal: its decimal digits, with a minus sign when negative.
   */
  function IntToString(n: int): (r: string)
    ensures |r| >= 1
    ensures n < 0 <==> r[0] == '-'
    ensures AllDigits(if n < 0 then r[1..] else r)
  {
    if n < 0 then "-" + NatToString(-n) else NatToString(n)
  }

  predicate IsIntLiteral(s: string) {
    && |s| >= 1
    && if s[0] == '-' then |s| >= 2 && AllDigits(s[1..]) else AllDigits(s)
  }

  /** The integer a decimal literal with an optional minus sign denotes. */
  function ParseInt(s: string): int
    requires IsIntLiteral(s)
  {
    if s[0] == '-' then -(DigitsValue(s[1..]) as int) else DigitsValue(s)
  }

  /** Reading back the rendering of `n` yields `n`: the text shows the number. */
  lemma IntToStringRoundTrip(n: int)
    ensures IsIntLiteral(IntToString(n))
    ensures ParseInt(IntToString(n)) == n
  {
    var r := IntToString(n);
    if n < 0 {
      assert r[1..] == NatToString(-n);
      NatToStringRoundTrip(-n);
    } else {
      NatToStringRoundTrip(n);
    }
  }
}
