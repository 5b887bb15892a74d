/** Byte strings, optional values and the decimal text of 64-bit integers. */
module Text {

  datatype Option<+T> = None | Some(value: T)

  /** The largest and smallest `long long`. */
  const INT64_MAX: int := 0x7fff_ffff_ffff_ffff
  const INT64_MIN: int := -0x8000_0000_0000_0000

  predicate IsInt64(n: int) {
    INT64_MIN <= n <= INT64_MAX
  }

  predicate IsDigit(c: char) {
    '0' <= c <= '9'
  }

  predicate AllDigits(s: string) {
    forall i :: 0 <= i < |s| ==> IsDigit(s[i])
  }

  function DigitChar(d: nat): (c: char)
    requires d < 10
    ensures IsDigit(c) && DigitValue(c) == d
  {
    ('0' as int + d) as char
  }

  function DigitValue(c: char): nat
    requires IsDigit(c)
  {
    c as int - '0' as int
  }

  /** `std::to_string` on a non-negative number. */
  function NatToText(n: nat): (s: string)
    ensures |s| > 0 && AllDigits(s)
  {
    if n < 10 then [DigitChar(n)] else NatToText(n / 10) + [DigitChar(n % 10)]
  }

  /** `std::to_string` on a signed number. */
  function IntToText(n: int): (s: string)
    ensures |s| > 0
    ensures forall i :: 0 <= i < |s| ==> s[i] == '-' || IsDigit(s[i])
  {
    if n < 0 then "-" + NatToText(-n) else NatToText(n)
  }

  function DigitsValue(s: string): nat
    requires AllDigits(s)
  {
    if s == "" then 0 else DigitsValue(s[..|s| - 1]) * 10 + DigitValue(s[|s| - 1])
  }

  /**
   * `std::from_chars` on a `long long`, accepted only when it succeeds and stops at the
   * end of the text: an optional minus sign, at least one digit, no overflow.
   */
  function ParseInteger(text: string): Option<int> {
    var negative := |text| > 0 && text[0] == '-';
    var digits := if negative then text[1..] else text;
    if digits == "" || !AllDigits(digits) then
      None
    else
      var n: int := if negative then 0 - DigitsValue(digits) else DigitsValue(digits);
      if IsInt64(n) then Some(n) else None
  }

  lemma {:induction false} DigitsOfText(n: nat)
    ensures DigitsValue(NatToText(n)) == n
  {
    var s := NatToText(n);
    if n >= 10 {
      DigitsOfText(n / 10);
      assert s[..|s| - 1] == NatToText(n / 10);
    } else {
      assert s[..|s| - 1] == "";
    }
  }

  /** Every 64-bit integer survives printing and parsing. */
  lemma IntegerRoundTrip(n: int)
    requires IsInt64(n)
    ensures ParseInteger(IntToText(n)) == Some(n)
  {
    if n < 0 {
      DigitsOfText(-n);
      assert IntToText(n)[1..] == NatToText(-n);
    } else {
      DigitsOfText(n);
      assert IsDigit(NatToText(n)[0]);
    }
  }

  function Pow10(k: nat): nat {
    if k == 0 then 1 else 10 * Pow10(k - 1)
  }

  lemma {:induction false} TextLength(n: nat, k: nat)
    requires 0 < k && n < Pow10(k)
    ensures |NatToText(n)| <= k
  {
    if n >= 10 {
      assert k > 1;
      TextLength(n / 10, k - 1);
    }
  }

  /** The decimal text of a `long long` has at most 20 characters. */
  lemma IntegerTextLength(n: int)
    requires IsInt64(n)
    ensures |IntToText(n)| <= 20
  {
    assert Pow10(4) == 10_000;
    assert Pow10(8) == 100_000_000;
    assert Pow10(12) == 1_000_000_000_000;
    assert Pow10(16) == 10_000_000_000_000_000;
    assert Pow10(19) == 10_000_000_000_000_000_000;
    TextLength(if n < 0 then -n else n, 19);
  }

  /** `part` stands in `line` at `pos`. */
  predicate At(line: string, pos: nat, part: string) {
    pos + |part| <= |line| && forall i :: 0 <= i < |part| ==> line[pos + i] == part[i]
  }

  lemma AtSplit(line: string, pos: nat, a: string, b: string)
    requires At(line, pos, a + b)
    ensures At(line, pos, a) && At(line, pos + |a|, b)
  {
    forall i | 0 <= i < |a| ensures line[pos + i] == a[i] {
      assert (a + b)[i] == a[i];
    }
    forall i | 0 <= i < |b| ensures line[pos + |a| + i] == b[i] {
      assert (a + b)[|a| + i] == b[i];
    }
  }

  lemma AtFits(line: string, pos: nat, part: string)
    requires At(line, pos, part)
    ensures pos + |part| <= |line|
  {
  }

  lemma AtFirst(line: string, pos: nat, part: string)
    requires part != "" && At(line, pos, part)
    ensures pos < |line| && line[pos] == part[0]
  {
    assert line[pos + 0] == part[0];
  }

  function UpperChar(c: char): char {
    if 'a' <= c <= 'z' then (c as int - 32) as char else c
  }

  function LowerChar(c: char): char {
    if 'A' <= c <= 'Z' then (c as int + 32) as char else c
  }

  function Upper(s: string): (r: string)
    ensures |r| == |s|
  {
    seq(|s|, i requires 0 <= i < |s| => UpperChar(s[i]))
  }

  function Lower(s: string): (r: string)
    ensures |r| == |s|
  {
    seq(|s|, i requires 0 <= i < |s| => LowerChar(s[i]))
  }

  /** How many digits a text starts with. */
  function LeadingDigits(text: string): (n: nat)
    ensures n <= |text| && AllDigits(text[..n])
    ensures n < |text| ==> !IsDigit(text[n])
  {
    if text == "" || !IsDigit(text[0]) then 0 else 1 + LeadingDigits(text[1..])
  }

  lemma {:induction false} AllLeading(digits: string)
    requires AllDigits(digits)
    ensures LeadingDigits(digits) == |digits|
  {
    if digits != "" {
      AllLeading(digits[1..]);
    }
  }

  function SkipSpaces(text: string): string {
    if text != "" && (text[0] == ' ' || '\t' <= text[0] <= '\r') then SkipSpaces(text[1..]) else text
  }

  /** `std::stoll`: leading spaces and trailing text are ignored; None stands for its exceptions. */
  function Stoll(text: string): Option<int> {
    var trimmed := SkipSpaces(text);
    var signed := trimmed != "" && (trimmed[0] == '-' || trimmed[0] == '+');
    var rest := if signed then trimmed[1..] else trimmed;
    var n := LeadingDigits(rest);
    if n == 0 then None
    else
      var value: int := if signed && trimmed[0] == '-' then 0 - DigitsValue(rest[..n]) else DigitsValue(rest[..n]);
      if IsInt64(value) then Some(value) else None
  }

  /** Printed numbers read back with `std::stoll` too. */
  lemma StollRoundTrip(n: int)
    requires IsInt64(n)
    ensures Stoll(IntToText(n)) == Some(n)
  {
    hide NatToText, DigitsValue, LeadingDigits;
    var digits := NatToText(if n < 0 then -n else n);
    DigitsOfText(if n < 0 then -n else n);
    AllLeading(digits);
    assert IsDigit(digits[0]);
    assert n < 0 ==> IntToText(n)[1..] == digits;
    assert digits[..|digits|] == digits;
  }
}
