/** Base-10 signed 64-bit integer parsing as `strconv.ParseInt(s, 10, 64)` does
    it, `strconv.ParseBool`, and the decimal formatting `%d` uses. */
module Decimal {
  import opened Wrappers
  import opened Errors

  const MaxInt64: int := 0x7fff_ffff_ffff_ffff
  const MinInt64: int := -0x8000_0000_0000_0000

  predicate InInt64(n: int)
  {
    MinInt64 <= n <= MaxInt64
  }

  predicate IsDigit(c: char)
  {
    '0' <= c <= '9'
  }

  predicate AllDigits(s: string)
  {
    forall i :: 0 <= i < |s| ==> IsDigit(s[i])
  }

  function DigitValue(c: char): nat
    requires IsDigit(c)
  {
    (c as int) - ('0' as int)
  }

  function DigitChar(d: nat): (c: char)
    requires d < 10
    ensures IsDigit(c) && DigitValue(c) == d
  {
    ('0' as int + d) as char
  }

  /** The value of a string of decimal digits, most significant first. */
  function DigitsValue(s: string): nat
    requires AllDigits(s)
    decreases |s|
  {
    if |s| == 0 then 0
    else DigitsValue(s[..|s| - 1]) * 10 + DigitValue(s[|s| - 1])
  }

  /** The shortest decimal spelling of `n`. */
  function Digits(n: nat): (s: string)
    ensures |s| > 0 && AllDigits(s)
  {
    if n < 10 then [DigitChar(n)] else Digits(n / 10) + [DigitChar(n % 10)]
  }

  /** `strconv.FormatInt(n, 10)`, the text `fmt` prints for `%d`. */
  function FormatInt(n: int): (s: string)
    ensures |s| > 0
  {
    if n < 0 then "-" + Digits(-n) else Digits(n)
  }

  /** `strconv.ParseInt(s, 10, 64)`: an optional sign, then one or more decimal
      digits, and a value that fits in 64 bits. The caller's wrapper
      (`parseInt` in config/config.go) turns every failure into `(0, err)`. */
  function ParseInt(s: string): (r: Result<int, Error>)
    ensures r.Ok? ==> InInt64(r.value)
    ensures r.Fail? ==> r.error.Num? && r.error.input == s
  {
    if |s| == 0 then Fail(Num("ParseInt", s, false))
    else
      var neg := s[0] == '-';
      var body := if s[0] == '+' || s[0] == '-' then s[1..] else s;
      if |body| == 0 || !AllDigits(body) then Fail(Num("ParseInt", s, false))
      else
        var v: int := DigitsValue(body);
        if (neg && v > -MinInt64) || (!neg && v > MaxInt64) then Fail(Num("ParseInt", s, true))
        else Ok(if neg then -v else v)
  }

  /** `s` is a sign (none, `+` or `-`) followed by one or more decimal digits. */
  predicate Signed(s: string, sign: string, digits: string)
  {
    (sign == "" || sign == "+" || sign == "-") && |digits| > 0 && AllDigits(digits) && s == sign + digits
  }

  /** The value a sign and a digit string spell. */
  function SignedValue(sign: string, digits: string): int
    requires AllDigits(digits)
  {
    var v: int := DigitsValue(digits);
    if sign == "-" then -v else v
  }

  /** Every signed decimal spelling parses to the value it spells, or is a
      range error when that value does not fit in 64 bits. */
  lemma ParseIntOfSigned(s: string, sign: string, digits: string)
    requires Signed(s, sign, digits)
    ensures var v := SignedValue(sign, digits);
      ParseInt(s) == if InInt64(v) then Ok(v) else Fail(Num("ParseInt", s, true))
  {
    if sign == "" {
      assert s == digits;
      assert IsDigit(s[0]);
    } else {
      assert s[1..] == digits;
    }
  }

  /** Only signed decimal spellings are accepted, each for the value it spells;
      every other string is a syntax error. */
  lemma ParseIntOnlySigned(s: string)
    ensures ParseInt(s).Ok? ==>
      exists sign, digits :: Signed(s, sign, digits) && SignedValue(sign, digits) == ParseInt(s).value
    ensures (forall sign, digits :: !Signed(s, sign, digits)) ==> ParseInt(s) == Fail(Num("ParseInt", s, false))
  {
    if |s| > 0 {
      var sign := if s[0] == '+' || s[0] == '-' then [s[0]] else "";
      var body := if s[0] == '+' || s[0] == '-' then s[1..] else s;
      assert s == sign + body;
      if |body| > 0 && AllDigits(body) {
        assert Signed(s, sign, body);
        ParseIntOfSigned(s, sign, body);
      }
    }
  }

  /** `strconv.ParseBool`: exactly twelve spellings are accepted. */
  function ParseBool(s: string): (r: Result<bool, Error>)
    ensures r == Ok(true) <==> s in {"1", "t", "T", "TRUE", "true", "True"}
    ensures r == Ok(false) <==> s in {"0", "f", "F", "FALSE", "false", "False"}
    ensures r.Fail? ==> r.error == Num("ParseBool", s, false)
  {
    if s in {"1", "t", "T", "TRUE", "true", "True"} then Ok(true)
    else if s in {"0", "f", "F", "FALSE", "false", "False"} then Ok(false)
    else Fail(Num("ParseBool", s, false))
  }

  lemma {:induction false} DigitsValueOfDigits(n: nat)
    ensures DigitsValue(Digits(n)) == n
    decreases n
  {
    var s := Digits(n);
    if n < 10 {
      assert s[..|s| - 1] == [];
    } else {
      DigitsValueOfDigits(n / 10);
      assert s[..|s| - 1] == Digits(n / 10);
    }
  }

  /** Formatting then parsing gives back every 64-bit value. */
  lemma ParseFormatRoundTrip(n: int)
    requires InInt64(n)
    ensures ParseInt(FormatInt(n)) == Ok(n)
  {
    var s := FormatInt(n);
    if n < 0 {
      DigitsValueOfDigits(-n);
      assert s[1..] == Digits(-n);
    } else {
      DigitsValueOfDigits(n);
    }
  }
}
