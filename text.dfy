/**
 * Characters and strings as the player-list code sees them: the regular-expression
 * classes `\d` and `\s`, JavaScript's `<` on strings, and `getNumber`, which reads
 * the digits scattered through a label as one decimal number.
 */
module Text {

  /** `\d`: the ASCII digits only. */
  predicate IsDigit(c: char) {
    '0' <= c <= '9'
  }

  /** `\s`: the ECMAScript WhiteSpace and LineTerminator code points. */
  predicate IsWhitespace(c: char) {
    || c == '\t' || c == '\n' || c == '\U{B}' || c == '\U{C}' || c == '\r' || c == ' '
    || c == '\U{A0}' || c == '\U{1680}' || ('\U{2000}' <= c <= '\U{200A}')
    || c == '\U{2028}' || c == '\U{2029}' || c == '\U{202F}' || c == '\U{205F}'
    || c == '\U{3000}' || c == '\U{FEFF}'
  }

  lemma WhitespaceIsNotDigit(c: char)
    ensures IsWhitespace(c) ==> !IsDigit(c)
  {
  }

  predicate AllDigits(s: string) {
    forall i | 0 <= i < |s| :: IsDigit(s[i])
  }

  predicate NoDigits(s: string) {
    forall i | 0 <= i < |s| :: !IsDigit(s[i])
  }

  predicate NoWhitespace(s: string) {
    forall i | 0 <= i < |s| :: !IsWhitespace(s[i])
  }

  type DigitString = s: string | AllDigits(s) witness ""

  // ---------------------------------------------------------------------------
  // JavaScript's `a < b` on strings: lexicographic, a proper prefix first.

  predicate StrLess(a: string, b: string) {
    if |a| == 0 then |b| > 0
    else if |b| == 0 then false
    else if a[0] == b[0] then StrLess(a[1..], b[1..])
    else a[0] < b[0]
  }

  /** A proper prefix goes first in string order. */
  lemma {:induction false} PrefixStrLess(a: string, t: string)
    requires t != ""
    ensures StrLess(a, a + t)
    decreases |a|
  {
    if a != "" {
      assert (a + t)[0] == a[0] && (a + t)[1..] == a[1..] + t;
      PrefixStrLess(a[1..], t);
    }
  }

  lemma {:induction false} StrLessIrreflexive(a: string)
    ensures !StrLess(a, a)
  {
    if |a| > 0 {
      StrLessIrreflexive(a[1..]);
    }
  }

  lemma {:induction false} StrLessAsymmetric(a: string, b: string)
    ensures StrLess(a, b) ==> !StrLess(b, a)
  {
    if |a| > 0 && |b| > 0 && a[0] == b[0] {
      StrLessAsymmetric(a[1..], b[1..]);
    }
  }

  lemma {:induction false} StrLessTransitive(a: string, b: string, c: string)
    requires StrLess(a, b) && StrLess(b, c)
    ensures StrLess(a, c)
  {
    if |a| > 0 && a[0] == b[0] && b[0] == c[0] {
      StrLessTransitive(a[1..], b[1..], c[1..]);
    }
  }

  lemma {:induction false} StrLessTotal(a: string, b: string)
    ensures a == b || StrLess(a, b) || StrLess(b, a)
  {
    if |a| > 0 && |b| > 0 && a[0] == b[0] {
      StrLessTotal(a[1..], b[1..]);
      if a[1..] == b[1..] {
        assert a == [a[0]] + a[1..] && b == [b[0]] + b[1..];
      }
    }
  }

  // ---------------------------------------------------------------------------
  // getNumber

  function DigitValue(c: char): nat
    requires IsDigit(c)
  {
    (c as int) - ('0' as int)
  }

  function Pow10(n: nat): (p: nat)
    ensures p >= 1
  {
    if n == 0 then 1 else 10 * Pow10(n - 1)
  }

  /** `Number(d)` for a string of decimal digits: `Number("")` is 0. */
  function DecimalValue(d: DigitString): nat {
    if |d| == 0 then 0 else DecimalValue(d[..|d| - 1]) * 10 + DigitValue(d[|d| - 1])
  }

  /** The digits of `s`, in order of appearance (`[...s.matchAll(/\d/g)].map(...).join("")`). */
  function Digits(s: string): (d: DigitString)
  {
    if |s| == 0 then ""
    else if IsDigit(s[0]) then [s[0]] + Digits(s[1..])
    else Digits(s[1..])
  }

  /** `getNumber`: the decimal value of every digit of the label joined together. */
  function GetNumber(s: string): nat {
    DecimalValue(Digits(s))
  }

  lemma {:induction false} DigitsConcat(s: string, t: string)
    ensures Digits(s + t) == Digits(s) + Digits(t)
  {
    if |s| > 0 {
      assert (s + t)[1..] == s[1..] + t;
      DigitsConcat(s[1..], t);
    } else {
      assert s + t == t;
    }
  }

  lemma {:induction false} DecimalValueConcat(a: DigitString, b: DigitString)
    ensures DecimalValue(a + b) == DecimalValue(a) * Pow10(|b|) + DecimalValue(b)
  {
    if |b| == 0 {
      assert a + b == a;
    } else {
      var b' := b[..|b| - 1];
      var d := DigitValue(b[|b| - 1]);
      assert (a + b)[..|a + b| - 1] == a + b';
      assert (a + b)[|a + b| - 1] == b[|b| - 1];
      DecimalValueConcat(a, b');
      assert DecimalValue(a + b) == DecimalValue(a + b') * 10 + d;
      assert DecimalValue(b) == DecimalValue(b') * 10 + d;
      assert Pow10(|b|) == 10 * Pow10(|b'|);
      ShiftDigit(DecimalValue(a), Pow10(|b'|), DecimalValue(b'), d);
    }
  }

  /** Appending a digit to `x * p + y` shifts both parts. */
  lemma ShiftDigit(x: int, p: int, y: int, d: int)
    ensures (x * p + y) * 10 + d == x * (10 * p) + (y * 10 + d)
  {
  }

  /** A label without digits reads as 0 (`Number("")`), never as NaN. */
  lemma {:induction false} GetNumberNoDigits(s: string)
    requires NoDigits(s)
    ensures GetNumber(s) == 0
  {
    if |s| > 0 {
      GetNumberNoDigits(s[1..]);
    }
  }

  /** One character contributes its digit value, or nothing when it is not a digit. */
  lemma GetNumberChar(c: char)
    ensures Digits([c]) == (if IsDigit(c) then [c] else "")
    ensures GetNumber([c]) == (if IsDigit(c) then DigitValue(c) else 0)
  {
    assert [c][1..] == "";
    if IsDigit(c) {
      assert Digits([c]) == [c];
      assert [c][..0] == "";
      assert DecimalValue([c]) == DecimalValue("") * 10 + DigitValue(c);
    }
  }

  /**
   * Joining labels joins their digit strings: the digits of `t` become the low-order
   * digits of the number read from `s + t`.
   */
  lemma GetNumberConcat(s: string, t: string)
    ensures GetNumber(s + t) == GetNumber(s) * Pow10(|Digits(t)|) + GetNumber(t)
  {
    DigitsConcat(s, t);
    DecimalValueConcat(Digits(s), Digits(t));
  }
}
