/** Decimal digit strings: the `\d` class of the parsers' regular expressions
    and the exact value of a run of digits (what `parseInt(value, 10)` yields
    when no precision is lost). */
module Decimal {

  /** `\d` of a JavaScript regular expression without the `u` flag. */
  predicate IsDigit(c: char) {
    '0' <= c <= '9'
  }

  predicate AllDigits(s: seq<char>) {
    forall i :: 0 <= i < |s| ==> IsDigit(s[i])
  }

  function DigitValue(c: char): (d: nat)
    requires IsDigit(c)
    ensures d < 10
  {
    (c - '0') as nat
  }

  function DigitChar(d: nat): (c: char)
    requires d < 10
    ensures IsDigit(c) && DigitValue(c) == d
  {
    ('0' as int + d) as char
  }

  function Pow10(n: nat): (r: nat)
    ensures r >= 1
  {
    if n == 0 then 1 else 10 * Pow10(n - 1)
  }

  /** The value of a string of decimal digits, most significant first; `n`
      digits are worth less than `10^n`. */
  function DigitsValue(s: seq<char>): (v: nat)
    requires AllDigits(s)
    ensures v < Pow10(|s|)
  {
    if s == [] then 0
    else
      var w, d := DigitsValue(s[..|s| - 1]), DigitValue(s[|s| - 1]);
      assert w * 10 + d < Pow10(|s| - 1) * 10 by {
        assert w <= Pow10(|s| - 1) - 1;
        assert w * 10 <= (Pow10(|s| - 1) - 1) * 10;
      }
      w * 10 + d
  }

  /** Digits written after others shift them by one decimal place each. */
  lemma {:induction false} DigitsValueAppend(a: seq<char>, b: seq<char>)
    requires AllDigits(a) && AllDigits(b)
    ensures AllDigits(a + b) && DigitsValue(a + b) == DigitsValue(a) * Pow10(|b|) + DigitsValue(b)
  {
    assert AllDigits(a + b);
    if b == [] {
      assert a + b == a && DigitsValue(b) == 0 && Pow10(|b|) == 1;
    } else {
      var b' := b[..|b| - 1];
      assert (a + b)[..|a + b| - 1] == a + b' && (a + b)[|a + b| - 1] == b[|b| - 1];
      DigitsValueAppend(a, b');
      var joined, joinedInit := DigitsValue(a + b), DigitsValue(a + b');
      var tail, tailInit := DigitsValue(b), DigitsValue(b');
      var scale, scaleInit := Pow10(|b|), Pow10(|b'|);
      ShiftStep(joined, joinedInit, tail, tailInit, DigitsValue(a), scale, scaleInit, DigitValue(b[|b| - 1]));
    }
  }

  /** The arithmetic of one more digit. Before it, the joined value
      `joinedInit` is the head's value `head` shifted by `scaleInit` plus the
      tail's value `tailInit`; appending the digit `d` to both the joined
      string and the tail multiplies the head's place by ten. */
  lemma ShiftStep(joined: int, joinedInit: int, tail: int, tailInit: int, head: int,
                  scale: int, scaleInit: int, d: int)
    requires joinedInit == head * scaleInit + tailInit && joined == joinedInit * 10 + d
    requires tail == tailInit * 10 + d && scale == 10 * scaleInit
    ensures joined == head * scale + tail
  {
  }

  /** The shortest decimal rendering of `n` (no leading zeros). */
  function ToDecimal(n: nat): (s: seq<char>)
    ensures s != [] && AllDigits(s)
    ensures |s| > 1 ==> s[0] != '0'
  {
    if n < 10 then [DigitChar(n)] else ToDecimal(n / 10) + [DigitChar(n % 10)]
  }

  /** Rendering a number and reading it back gives the number. */
  lemma {:induction false} DigitsValueOfDecimal(n: nat)
    ensures DigitsValue(ToDecimal(n)) == n
  {
    var s := ToDecimal(n);
    if n >= 10 {
      assert s[..|s| - 1] == ToDecimal(n / 10);
      DigitsValueOfDecimal(n / 10);
    }
  }

  /** Leading zeros do not change the value. */
  lemma {:induction false} LeadingZeroValue(s: seq<char>)
    requires AllDigits(s)
    ensures AllDigits(['0'] + s) && DigitsValue(['0'] + s) == DigitsValue(s)
  {
    var z := ['0'] + s;
    assert AllDigits(z);
    if s != [] {
      assert z[..|z| - 1] == ['0'] + s[..|s| - 1];
      LeadingZeroValue(s[..|s| - 1]);
    }
  }
}
