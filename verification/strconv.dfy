/**
 * Go's `strconv.ParseInt(s, 10, 64)`, which the handlers apply to the `:id`
 * path segment, and base-10 formatting of integers (`%d`, used in the DSN).
 * With an explicit base of 10, Go accepts an optional sign followed by one
 * or more ASCII digits (no underscores, no base prefix) whose value fits in
 * a signed 64-bit integer; leading zeros are allowed.
 */
module StrConv {
  import opened Wrappers

  const MinInt64: int := -0x8000_0000_0000_0000
  const MaxInt64: int := 0x7fff_ffff_ffff_ffff

  predicate InInt64(n: int) {
    MinInt64 <= n <= MaxInt64
  }

  predicate IsDigit(c: char) {
    '0' <= c <= '9'
  }

  predicate AllDigits(s: string) {
    forall i :: 0 <= i < |s| ==> IsDigit(s[i])
  }

  /** The value of a string of decimal digits. */
  function DigitsValue(s: string): nat
    requires AllDigits(s)
  {
    if s == [] then 0 else DigitsValue(s[..|s| - 1]) * 10 + (s[|s| - 1] as int - '0' as int)
  }

  function DigitChar(d: nat): char
    requires d < 10
  {
    ('0' as int + d) as char
  }

  /** The shortest decimal digits of `n`. */
  function NatToDecimal(n: nat): (r: string)
    ensures |r| >= 1 && AllDigits(r)
    ensures DigitsValue(r) == n
    ensures r[0] == '0' ==> n == 0
  {
    if n < 10 then
      [DigitChar(n)]
    else
      var r := NatToDecimal(n / 10) + [DigitChar(n % 10)];
      assert r[..|r| - 1] == NatToDecimal(n / 10);
      r
  }

  /** `strconv.FormatInt(n, 10)`, the text `%d` prints. */
  function FormatInt(n: int): string {
    if n < 0 then "-" + NatToDecimal(-n) else NatToDecimal(n)
  }

  /** `strconv.ParseInt(s, 10, 64)`; `None` is the syntax or range error. */
  function ParseInt64(s: string): (r: Option<int>)
    ensures r.Some? ==> InInt64(r.value)
    // accepted text: an optional sign, then at least one digit and nothing else
    ensures r.Some? ==> |s| >= 1 && (IsDigit(s[0]) || ((s[0] == '+' || s[0] == '-') && |s| >= 2))
    ensures r.Some? ==> forall i :: 0 < i < |s| ==> IsDigit(s[i])
    ensures r.Some? && s[0] == '-' ==> r.value <= 0
    ensures r.Some? && s[0] != '-' ==> r.value >= 0
    // the value is that of the digits, negated after a minus sign
    ensures r.Some? ==>
      r.value == (if s[0] == '-' then -(DigitsValue(s[1..]) as int)
                  else if s[0] == '+' then DigitsValue(s[1..])
                  else DigitsValue(s))
  {
    if s == [] then None
    else
      var neg := s[0] == '-';
      var digits := if s[0] == '+' || s[0] == '-' then s[1..] else s;
      if digits == [] || !AllDigits(digits) then None
      else
        var v: int := if neg then 0 - DigitsValue(digits) as int else DigitsValue(digits);
        if InInt64(v) then Some(v) else None
  }

  /** Every 64-bit integer parses back from its decimal text. */
  lemma FormatThenParse(n: int)
    requires InInt64(n)
    ensures ParseInt64(FormatInt(n)) == Some(n)
  {
    if n < 0 {
      var s := FormatInt(n);
      assert s[1..] == NatToDecimal(-n);
    }
  }

  /** The value an optional sign and a digit string denote. */
  function SignedValue(sign: string, digits: string): int
    requires AllDigits(digits)
  {
    if sign == "-" then -(DigitsValue(digits) as int) else DigitsValue(digits)
  }

  /**
   * Every optional sign followed by digits, leading zeros and a `+`
   * included, is accepted when its value fits in 64 bits.
   */
  lemma ParseAcceptsSignedDigits(sign: string, digits: string)
    requires sign == "" || sign == "+" || sign == "-"
    requires |digits| >= 1 && AllDigits(digits)
    requires InInt64(SignedValue(sign, digits))
    ensures ParseInt64(sign + digits) == Some(SignedValue(sign, digits))
  {
    if sign != "" {
      assert (sign + digits)[1..] == digits;
    } else {
      assert sign + digits == digits;
    }
  }

  /** Leading zeros and an explicit sign are accepted, as `strconv.ParseInt` does. */
  lemma ParseAcceptsExamples()
    ensures ParseInt64("007") == Some(7)
    ensures ParseInt64("+42") == Some(42)
    ensures ParseInt64("-0") == Some(0)
  {
    assert "007"[..2] == "00" && "00"[..1] == "0" && "0"[..0] == "";
    ParseAcceptsSignedDigits("", "007");
    assert "" + "007" == "007";
    assert "42"[..1] == "4" && "4"[..0] == "";
    ParseAcceptsSignedDigits("+", "42");
    assert "+" + "42" == "+42";
    ParseAcceptsSignedDigits("-", "0");
    assert "-" + "0" == "-0";
  }

  /** Empty text, a lone sign, digit separators and letters are rejected. */
  lemma ParseRejectsExamples()
    ensures ParseInt64("") == None
    ensures ParseInt64("+") == None
    ensures ParseInt64("1_0") == None
    ensures ParseInt64("abc") == None
  {
    assert "1_0"[1] == '_';
  }

  /** A value outside the 64-bit range is refused even though its text is well formed. */
  lemma ParseRejectsOverflow(n: int)
    requires !InInt64(n)
    ensures ParseInt64(FormatInt(n)) == None
  {
    if n < 0 {
      var s := FormatInt(n);
      assert s[1..] == NatToDecimal(-n);
    }
  }
}
