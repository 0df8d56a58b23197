/** Decimal numbers as the configuration stores and reads them. */
module Decimal {
  predicate IsDigit(c: char) {
    '0' <= c <= '9'
  }

  function DigitOf(n: nat): (c: char)
    requires n < 10
    ensures IsDigit(c) && ValueOf(c) == n
  {
    ('0' as int + n) as char
  }

  function ValueOf(c: char): (n: nat)
    requires IsDigit(c)
    ensures n < 10
  {
    c as int - '0' as int
  }

  /** `String(n)`: no leading zeros. */
  function Digits(n: nat): (s: string)
    ensures s != "" && forall i | 0 <= i < |s| :: IsDigit(s[i])
  {
    if n < 10 then [DigitOf(n)] else Digits(n / 10) + [DigitOf(n % 10)]
  }

  /** How many leading characters are digits. */
  function DigitCount(s: string): (n: nat)
    ensures n <= |s| && forall i | 0 <= i < n :: IsDigit(s[i])
    ensures n < |s| ==> !IsDigit(s[n])
  {
    if s == "" || !IsDigit(s[0]) then 0 else 1 + DigitCount(s[1..])
  }

  function Value(s: string): nat
    requires forall i | 0 <= i < |s| :: IsDigit(s[i])
  {
    if s == "" then 0 else 10 * Value(s[..|s| - 1]) + ValueOf(s[|s| - 1])
  }

  /** `toInt` on text without blanks and sign: the leading digits, 0 if there are none. */
  function ToInt(s: string): nat {
    Value(s[..DigitCount(s)])
  }

  lemma AllDigits(s: string)
    requires forall i | 0 <= i < |s| :: IsDigit(s[i])
    ensures DigitCount(s) == |s| && s[..|s|] == s
  {
  }

  /** A stored number reads back. */
  lemma {:induction false} ToIntOfDigits(n: nat)
    ensures ToInt(Digits(n)) == n
    decreases n
  {
    AllDigits(Digits(n));
    if n < 10 {
      assert Digits(n)[..0] == "";
      assert Value(Digits(n)) == ValueOf(DigitOf(n));
    } else {
      ToIntOfDigits(n / 10);
      AllDigits(Digits(n / 10));
      assert Digits(n)[..|Digits(n)| - 1] == Digits(n / 10);
    }
  }

  /** The text of a number is its decimal notation: one more digit on the right for ten times as much. */
  lemma DigitsAppend(n: nat, d: nat)
    requires d < 10
    ensures Digits(d) == ["0123456789"[d]]
    ensures n > 0 ==> Digits(10 * n + d) == Digits(n) + ["0123456789"[d]]
  {
    assert DigitOf(d) == "0123456789"[d];
  }

  /** Reading stops at the first character that is not a digit. */
  lemma ToIntStops(n: nat, c: char, rest: string)
    requires !('0' <= c <= '9')
    ensures ToInt(Digits(n) + [c] + rest) == n && ToInt([c] + rest) == 0
  {
    DigitsCounted(Digits(n), [c] + rest);
    ToIntOfDigits(n);
    AllDigits(Digits(n));
    assert Digits(n) + [c] + rest == Digits(n) + ([c] + rest);
  }

  lemma DigitsCounted(s: string, rest: string)
    requires (forall i | 0 <= i < |s| :: IsDigit(s[i])) && rest != "" && !IsDigit(rest[0])
    ensures DigitCount(s + rest) == |s| && (s + rest)[..|s|] == s
  {
    var (t, n) := (s + rest, DigitCount(s + rest));
    if n < |s| {
      assert t[n] == s[n];
    } else {
      assert t[|s|] == rest[0];
    }
  }

  /** Numbers below 10 and below 1000 take at most one and three characters. */
  lemma ShortDigits(n: nat)
    ensures n < 10 ==> |Digits(n)| == 1
    ensures n < 1000 ==> |Digits(n)| <= 3
  {
    if 10 <= n < 1000 {
      var m := n / 10;
      assert Digits(n) == Digits(m) + [DigitOf(n % 10)];
      if m >= 10 {
        assert Digits(m) == Digits(m / 10) + [DigitOf(m % 10)];
      }
    }
  }

  /** Digits are neither separators nor NUL. */
  lemma DigitsArePlain(n: nat, c: char)
    requires !IsDigit(c)
    ensures c !in Digits(n)
  {
  }

  lemma EmptyIsZero()
    ensures ToInt("") == 0
  {
  }
}
