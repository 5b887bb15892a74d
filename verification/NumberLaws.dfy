/** Which texts are read as which numbers. */
module NumberLaws {
  import opened Text

  /** The last digit of a number, and what stands before it. */
  lemma DigitsOf(n: nat)
    ensures n < 10 ==> NatToText(n) == ["0123456789"[n]]
    ensures n >= 10 ==> NatToText(n) == NatToText(n / 10) + ["0123456789"[n % 10]]
  {
  }

  function Zeros(z: nat): (s: string)
    ensures |s| == z && AllDigits(s)
  {
    seq(z, _ => '0')
  }

  /** The decimal digits of a number, with any number of zeros before them. */
  ghost predicate Spells(digits: string, m: nat) {
    exists z: nat :: digits == Zeros(z) + NatToText(m)
  }

  lemma NextDigit(m: nat, d: nat)
    requires d < 10 && m > 0
    ensures NatToText(10 * m + d) == NatToText(m) + [DigitChar(d)]
  {
    hide NatToText;
    assert (10 * m + d) / 10 == m && (10 * m + d) % 10 == d;
    NatToTextStep(10 * m + d);
  }

  lemma NatToTextStep(n: nat)
    requires n >= 10
    ensures NatToText(n) == NatToText(n / 10) + [DigitChar(n % 10)]
  {
  }

  /** One digit more, at the end. */
  lemma SpellsMore(init: string, m: nat, d: nat)
    requires d < 10 && Spells(init, m)
    ensures Spells(init + [DigitChar(d)], 10 * m + d)
  {
    hide NatToText, Zeros, Spells;
    var z := ZerosIn(init, m);
    var last := [DigitChar(d)];
    OneDigit(d);
    if m == 0 {
      OneDigit(0);
      OneZeroMore(z);
      assert init + last == Zeros(z + 1) + NatToText(d);
      Spelled(z + 1, d);
    } else {
      NextDigit(m, d);
      assert init + last == Zeros(z) + NatToText(10 * m + d);
      Spelled(z, 10 * m + d);
    }
  }

  lemma ZerosIn(digits: string, m: nat) returns (z: nat)
    requires Spells(digits, m)
    ensures digits == Zeros(z) + NatToText(m)
  {
    hide NatToText, Zeros;
    z :| digits == Zeros(z) + NatToText(m);
  }

  lemma Spelled(z: nat, m: nat)
    ensures Spells(Zeros(z) + NatToText(m), m)
  {
    hide NatToText, Zeros;
  }

  lemma OneZeroMore(z: nat)
    ensures Zeros(z + 1) == Zeros(z) + ['0'] && DigitChar(0) == '0'
  {
  }

  /** Every digit text spells its value. */
  lemma {:induction false} SpelledOut(digits: string)
    requires AllDigits(digits) && digits != ""
    ensures Spells(digits, DigitsValue(digits))
  {
    hide NatToText, Spells;
    var init, last := digits[..|digits| - 1], digits[|digits| - 1];
    var d := DigitValue(last);
    assert digits == init + [DigitChar(d)];
    if init == "" {
      OneDigit(d);
      assert Zeros(0) + NatToText(d) == digits;
      Spelled(0, d);
    } else {
      SpelledOut(init);
      SpellsMore(init, DigitsValue(init), d);
    }
  }

  lemma OneDigit(d: nat)
    requires d < 10
    ensures NatToText(d) == [DigitChar(d)]
  {
  }

  lemma {:induction false} ZerosCountNothing(z: nat, digits: string)
    requires AllDigits(digits)
    ensures AllDigits(Zeros(z) + digits) && DigitsValue(Zeros(z) + digits) == DigitsValue(digits)
  {
    var all := Zeros(z) + digits;
    if digits == "" {
      if z > 0 {
        assert all[..|all| - 1] == Zeros(z - 1) + "";
        ZerosCountNothing(z - 1, "");
      }
    } else {
      assert all[..|all| - 1] == Zeros(z) + digits[..|digits| - 1];
      ZerosCountNothing(z, digits[..|digits| - 1]);
    }
  }

  lemma SpellsItsValue(digits: string, m: nat)
    requires Spells(digits, m)
    ensures digits != "" && AllDigits(digits) && DigitsValue(digits) == m
  {
    hide NatToText, DigitsValue;
    var z: nat :| digits == Zeros(z) + NatToText(m);
    ZerosCountNothing(z, NatToText(m));
    DigitsOfText(m);
  }

  /** A number, written with or without zeros in front, and with a minus sign if it is negative; or a negative zero. */
  ghost predicate Writes(text: string, n: int) {
    || (n >= 0 && Spells(text, n))
    || (n <= 0 && text != "" && text[0] == '-' && Spells(text[1..], -n))
  }

  /** Exactly these texts are read, as exactly these numbers, as long as they fit. */
  lemma IntegerLanguage(text: string, n: int)
    ensures ParseInteger(text) == Some(n) <==> IsInt64(n) && Writes(text, n)
  {
    hide NatToText, DigitsValue, Spells;
    if Writes(text, n) {
      if n >= 0 && Spells(text, n) {
        SpellsItsValue(text, n);
      } else {
        SpellsItsValue(text[1..], -n);
      }
    }
    if ParseInteger(text) == Some(n) {
      SpelledOut(if text[0] == '-' then text[1..] else text);
    }
  }

  lemma {:induction false} SpacesSkipped(white: string, text: string)
    requires forall i :: 0 <= i < |white| ==> white[i] == ' ' || '\t' <= white[i] <= '\r'
    requires text != "" && (text[0] in {'-', '+'} || IsDigit(text[0]))
    ensures SkipSpaces(white + text) == text
  {
    if white == "" {
      assert white + text == text;
    } else {
      assert (white + text)[1..] == white[1..] + text;
      SpacesSkipped(white[1..], text);
    }
  }

  lemma {:induction false} DigitsEnd(digits: string, tail: string)
    requires AllDigits(digits) && (tail != "" ==> !IsDigit(tail[0]))
    ensures LeadingDigits(digits + tail) == |digits|
  {
    if digits == "" {
      assert digits + tail == tail;
    } else {
      assert (digits + tail)[1..] == digits[1..] + tail;
      DigitsEnd(digits[1..], tail);
    }
  }

  /** The lenient reader skips white space before a number and whatever follows it. */
  lemma LenientLanguage(white: string, sign: string, digits: string, tail: string, m: nat)
    requires forall i :: 0 <= i < |white| ==> white[i] == ' ' || '\t' <= white[i] <= '\r'
    requires sign in {"", "+", "-"} && Spells(digits, m) && (tail != "" ==> !IsDigit(tail[0]))
    ensures var n: int := if sign == "-" then 0 - m else m;
      Stoll(white + (sign + (digits + tail))) == if IsInt64(n) then Some(n) else None
  {
    hide NatToText, DigitsValue, Spells, LeadingDigits, SkipSpaces;
    SpellsItsValue(digits, m);
    DigitsEnd(digits, tail);
    var rest := digits + tail;
    assert rest[0] == digits[0];
    SpacesSkipped(white, sign + rest);
    assert rest[..|digits|] == digits;
    assert sign != "" ==> (sign + rest)[1..] == rest;
    assert sign == "" ==> sign + rest == rest;
  }
}
