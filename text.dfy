/**
 * The string operations the source relies on: `toLowerCase` (ASCII letters only),
 * `includes`, `trim` to test for a blank query, `toString` of a non-negative
 * integer, and `padStart(2, '0')`, plus the `m:ss` rendering built from them.
 */
module Text {

  /** `toLowerCase` on one character, restricted to the ASCII letters. */
  function LowerChar(c: char): (r: char)
    ensures 'A' <= c <= 'Z' ==> r as int == c as int + 32
    ensures !('A' <= c <= 'Z') ==> r == c
  {
    if 'A' <= c <= 'Z' then (c as int + 32) as char else c
  }

  function Lower(s: string): (r: string)
    ensures |r| == |s| && forall i :: 0 <= i < |s| ==> r[i] == LowerChar(s[i])
  {
    seq(|s|, i requires 0 <= i < |s| => LowerChar(s[i]))
  }

  /** `s.includes(sub)`: `sub` occurs in `s` at some position (the empty string occurs everywhere). */
  predicate Contains(s: string, sub: string) {
    exists i :: 0 <= i <= |s| - |sub| && OccursAt(s, sub, i)
  }

  predicate OccursAt(s: string, sub: string, i: int)
    requires 0 <= i <= |s| - |sub|
  {
    s[i..i + |sub|] == sub
  }

  /** The characters `String.prototype.trim` strips: ECMAScript WhiteSpace and LineTerminator. */
  predicate IsJsWhitespace(c: char) {
    || c == '\t' || c == '\n' || c == '\U{B}' || c == '\U{C}' || c == '\r' || c == ' '
    || c == '\U{A0}' || c == '\U{1680}' || ('\U{2000}' <= c <= '\U{200A}')
    || c == '\U{2028}' || c == '\U{2029}' || c == '\U{202F}' || c == '\U{205F}'
    || c == '\U{3000}' || c == '\U{FEFF}'
  }

  /** `!s.trim()`: the string is empty once leading and trailing whitespace is stripped. */
  predicate IsBlank(s: string) {
    forall i :: 0 <= i < |s| ==> IsJsWhitespace(s[i])
  }

  predicate IsDigits(s: string) {
    forall i :: 0 <= i < |s| ==> '0' <= s[i] <= '9'
  }

  function DigitChar(d: nat): (c: char)
    requires d < 10
    ensures '0' <= c <= '9' && c as int - '0' as int == d
  {
    ('0' as int + d) as char
  }

  /** The number a string of decimal digits denotes (read most significant digit first). */
  function DecimalValue(s: string): nat
    requires IsDigits(s)
  {
    if s == [] then 0
    else DecimalValue(s[..|s| - 1]) * 10 + (s[|s| - 1] as int - '0' as int)
  }

  /** `n.toString()` for a non-negative integer: its decimal digits, no leading zero. */
  function NatToString(n: nat): (r: string)
    ensures |r| >= 1 && IsDigits(r)
    ensures (|r| == 1) == (n < 10)
    ensures |r| > 1 ==> r[0] != '0'
  {
    if n < 10 then [DigitChar(n)] else NatToString(n / 10) + [DigitChar(n % 10)]
  }

  /** Reading back the digits of `NatToString(n)` gives `n`. */
  lemma {:induction false} NatToStringRoundTrip(n: nat)
    ensures DecimalValue(NatToString(n)) == n
  {
    var r := NatToString(n);
    if n >= 10 {
      NatToStringRoundTrip(n / 10);
      assert r[..|r| - 1] == NatToString(n / 10);
    }
  }

  /** `s.padStart(2, '0')`: one leading zero in front of a single character. */
  function PadStart2(s: string): (r: string)
    ensures |s| >= 2 ==> r == s
    ensures |s| < 2 ==> |r| == 2 && r[2 - |s|..] == s && forall i :: 0 <= i < 2 - |s| ==> r[i] == '0'
  {
    if |s| == 0 then "00" else if |s| == 1 then "0" + s else s
  }

  /**
   * `${Math.floor(s / 60)}:${(s % 60).toString().padStart(2, '0')}` for a whole
   * number of seconds: the song card's `formatDuration` and the player's
   * identical `formatTime`.
   */
  function MinSec(s: nat): (r: string)
    ensures |r| >= 4 && r[|r| - 3] == ':'
  {
    NatToString(s / 60) + ":" + PadStart2(NatToString(s % 60))
  }

  /**
   * The rendering of `s` seconds is `m:ss`: minutes in decimal, a colon, and
   * exactly two digits `00`..`59` of seconds; parsing the two fields back gives
   * `60 * m + ss == s`.
   */
  lemma MinSecRoundTrip(s: nat)
    ensures var t := MinSec(s);
      && |t| >= 4 && t[|t| - 3] == ':'
      && IsDigits(t[..|t| - 3]) && IsDigits(t[|t| - 2..])
      && '0' <= t[|t| - 2] <= '5'
      && DecimalValue(t[|t| - 2..]) < 60
      && 60 * DecimalValue(t[..|t| - 3]) + DecimalValue(t[|t| - 2..]) == s
      && (|t| == 4 || t[0] != '0')
  {
    var m, ss := NatToString(s / 60), PadStart2(NatToString(s % 60));
    SecondsField(s % 60);
    NatToStringRoundTrip(s / 60);
    var t := MinSec(s);
    assert t == m + ":" + ss;
    assert t[..|t| - 3] == m;
    assert t[|t| - 2..] == ss;
  }

  /** A two-digit field is read as tens and units. */
  lemma TwoDigitValue(ss: string)
    requires |ss| == 2 && IsDigits(ss)
    ensures DecimalValue(ss) == 10 * (ss[0] as int - '0' as int) + (ss[1] as int - '0' as int)
  {
    assert ss[..1][..0] == [] && ss[..1][0] == ss[0];
    assert DecimalValue(ss[..1]) == ss[0] as int - '0' as int;
  }

  /** The seconds field of a count below 60: two digits, the first at most 5, reading back as the count. */
  lemma SecondsField(n: nat)
    requires n < 60
    ensures var ss := PadStart2(NatToString(n));
      && |ss| == 2 && IsDigits(ss) && '0' <= ss[0] <= '5' && DecimalValue(ss) == n
  {
    var ss := PadStart2(NatToString(n));
    if n < 10 {
      assert ss == ['0', DigitChar(n)];
    } else {
      assert NatToString(n) == [DigitChar(n / 10), DigitChar(n % 10)];
      assert ss == NatToString(n);
      assert n / 10 < 6 && 10 * (n / 10) + n % 10 == n;
    }
    TwoDigitValue(ss);
  }
}
