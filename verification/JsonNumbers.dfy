/** Printed integers read as numbers (section 6 of RFC 8259), and printed strings without their escapes
    (section 7). */
module JsonNumbers {
  import opened JsonTree

  function DigitValue(c: char): int { c as int - '0' as int }

  /** The decimal value of a text of digits. */
  function DecimalValue(s: string): int {
    if s == "" then 0 else 10 * DecimalValue(s[..|s| - 1]) + DigitValue(s[|s| - 1])
  }

  /** The value of a text of digits that may have a minus in front. */
  function NumeralValue(s: string): int {
    if s != "" && s[0] == '-' then -DecimalValue(s[1..]) else DecimalValue(s)
  }

  /** Digits without a leading zero, except for zero itself. */
  predicate IsNumeral(s: string) {
    s != "" && (forall i :: 0 <= i < |s| ==> '0' <= s[i] <= '9') && (s[0] == '0' ==> |s| == 1)
  }

  predicate IsInteger(s: string) {
    if s != "" && s[0] == '-' then IsNumeral(s[1..]) && s[1] != '0' else IsNumeral(s)
  }

  lemma DigitIsItsValue(d: nat)
    requires d < 10
    ensures '0' <= Digit(d) <= '9' && DigitValue(Digit(d)) == d
  {
  }

  /** The digits of a number have its value, and no zero in front. */
  lemma {:induction false} DigitsAreNumber(v: nat)
    ensures DecimalValue(Digits(v)) == v && IsNumeral(Digits(v)) && (v > 0 ==> Digits(v)[0] != '0')
  {
    DigitIsItsValue(v % 10);
    var last := Digit(v % 10);
    hide Digit;
    if v < 10 {
      assert [last][..0] == "" && DecimalValue("") == 0;
    } else {
      DigitsAreNumber(v / 10);
      var front := Digits(v / 10);
      assert Digits(v) == front + [last];
      assert (front + [last])[..|front|] == front;
    }
  }

  /** What is printed for an integer is its numeral: its value is the integer, and it has no needless
      zero. */
  lemma IntegerIsPrinted(v: int)
    ensures NumeralValue(IntText(v)) == v && IsInteger(IntText(v))
  {
    DigitsAreNumber(if v < 0 then -v else v);
    hide Digits, DecimalValue;
    if v < 0 {
      assert ("-" + Digits(-v))[1..] == Digits(-v);
    }
  }

  // ---------------------------------------------------------------- strings

  /** A string with every backslash taken away that has a character behind it to stand for. */
  function Unescaped(s: string): (r: string) {
    if s == "" then ""
    else if s[0] == '\\' && |s| > 1 then [s[1]] + Unescaped(s[2..])
    else [s[0]] + Unescaped(s[1..])
  }

  /** No quote, unless behind a backslash. */
  predicate QuotesEscaped(s: string) {
    s == "" || (s[0] != '"' && (if s[0] == '\\' && |s| > 1 then QuotesEscaped(s[2..]) else QuotesEscaped(s[1..])))
  }

  /** What is printed of a string without backslashes stands for the string, and has no quote that would end
      it. */
  lemma {:induction false} EscapedStandsFor(s: string)
    requires '\\' !in s
    ensures Unescaped(Escaped(s)) == s && QuotesEscaped(Escaped(s))
  {
    if s != "" {
      EscapedStandsFor(s[1..]);
      var rest := Escaped(s[1..]);
      assert Escaped(s) == (if s[0] == '"' then ['\\', '"'] else [s[0]]) + rest;
      hide Escaped;
      if s[0] == '"' {
        PairUnescaped(rest);
      } else {
        OneUnescaped(s[0], rest);
      }
      assert [s[0]] + s[1..] == s;
    }
  }

  lemma PairUnescaped(rest: string)
    ensures var text := ['\\', '"'] + rest;
            Unescaped(text) == ['"'] + Unescaped(rest) && (QuotesEscaped(text) <==> QuotesEscaped(rest))
  {
    assert (['\\', '"'] + rest)[2..] == rest;
  }

  lemma OneUnescaped(c: char, rest: string)
    requires c != '\\' && c != '"'
    ensures var text := [c] + rest;
            Unescaped(text) == [c] + Unescaped(rest) && (QuotesEscaped(text) <==> QuotesEscaped(rest))
  {
    assert ([c] + rest)[1..] == rest;
  }
}
