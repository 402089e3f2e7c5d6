/**
 * Character classes of the C library in the "C" locale, the stream cursor's view of the
 * input, and decimal formatting of non-negative integers (what `fmt::format("{}", n)` prints).
 */
module Chars {

  /** `isspace`: space, tab, newline, vertical tab, form feed, carriage return. */
  predicate IsSpace(c: char) {
    c == ' ' || 9 <= c as int <= 13
  }

  /** `isalpha` */
  predicate IsAlpha(c: char) {
    ('A' <= c <= 'Z') || ('a' <= c <= 'z')
  }

  /** `isdigit` */
  predicate IsDigit(c: char) {
    '0' <= c <= '9'
  }

  /** `isalnum` */
  predicate IsAlnum(c: char) {
    IsAlpha(c) || IsDigit(c)
  }

  /**
   * `*stream`: the character under the cursor at offset `i`, or NUL once the cursor is
   * past the end of the text.
   */
  function Peek(input: string, i: nat): (c: char)
    ensures c != '\0' ==> i < |input| && c == input[i]
  {
    if i < |input| then input[i] else '\0'
  }

  function DigitChar(d: nat): (c: char)
    requires d < 10
    ensures IsDigit(c) && c as int - '0' as int == d
  {
    ('0' as int + d) as char
  }

  /** The numeric value of a string of decimal digits. */
  function DecimalValue(s: string): nat
    requires forall i :: 0 <= i < |s| ==> IsDigit(s[i])
    decreases |s|
  {
    if s == [] then 0
    else
      var last := s[|s| - 1];
      assert IsDigit(last);
      DecimalValue(s[..|s| - 1]) * 10 + (last as int - '0' as int)
  }

  /** `fmt::format("{}", n)` for a non-negative `n`: its digits, without leading zeros. */
  function DecimalString(n: nat): (s: string)
    ensures |s| >= 1
    ensures forall i :: 0 <= i < |s| ==> IsDigit(s[i])
    ensures |s| > 1 ==> s[0] != '0'
    decreases n
  {
    if n < 10 then [DigitChar(n)] else DecimalString(n / 10) + [DigitChar(n % 10)]
  }

  /** Reading back the digits that `DecimalString` prints gives the number again. */
  lemma {:induction false} DecimalRoundTrip(n: nat)
    ensures DecimalValue(DecimalString(n)) == n
    decreases n
  {
    if n >= 10 {
      DecimalRoundTrip(n / 10);
      var s := DecimalString(n);
      assert s[..|s| - 1] == DecimalString(n / 10);
    }
  }
}
