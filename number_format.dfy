/**
 * The part of JavaScript's number-to-string conversion that the slider's
 * percentage positions go through: a Number whose value is an integer of
 * magnitude below 10^21 is written as plain decimal digits, with a leading
 * '-' when it is negative. The parse-back functions are the partner that
 * shows the text denotes exactly the number it was made from.
 */
module NumberFormat {

  datatype Option<T> = None | Some(value: T)

  /** Below this magnitude an integral Number is printed without an exponent. */
  const PlainLimit: real := 1_000_000_000_000_000_000_000.0

  predicate IsIntegral(x: real) {
    x.Floor as real == x
  }

  predicate IsDigit(c: char) {
    '0' <= c <= '9'
  }

  predicate AllDigits(s: string) {
    forall i :: 0 <= i < |s| ==> IsDigit(s[i])
  }

  /** A digit string as the formatter writes it: non-empty, no leading zero. */
  predicate IsCanonicalDecimal(s: string) {
    && |s| >= 1
    && AllDigits(s)
    && (|s| > 1 ==> s[0] != '0')
  }

  /** An optional '-' followed by a canonical digit string, never "-0". */
  predicate IsIntegerText(s: string) {
    if |s| > 0 && s[0] == '-' then IsCanonicalDecimal(s[1..]) && s[1..] != "0"
    else IsCanonicalDecimal(s)
  }

  function DigitValue(c: char): (d: nat)
    requires IsDigit(c)
    ensures d < 10
  {
    c as int - '0' as int
  }

  function DigitChar(d: nat): (c: char)
    requires d < 10
    ensures IsDigit(c) && DigitValue(c) == d
  {
    ('0' as int + d) as char
  }

  /** The decimal text of n, most significant digit first. */
  function ToDecimal(n: nat): (s: string)
    ensures IsCanonicalDecimal(s)
    ensures s == "0" <==> n == 0
  {
    if n < 10 then [DigitChar(n)] else ToDecimal(n / 10) + [DigitChar(n % 10)]
  }

  /** The value a digit string denotes. */
  function ParseDecimal(s: string): nat
    requires AllDigits(s)
  {
    if s == [] then 0 else ParseDecimal(s[..|s| - 1]) * 10 + DigitValue(s[|s| - 1])
  }

  lemma {:induction false} ParseToDecimal(n: nat)
    ensures ParseDecimal(ToDecimal(n)) == n
  {
    if n >= 10 {
      var s := ToDecimal(n);
      ParseToDecimal(n / 10);
      assert s[..|s| - 1] == ToDecimal(n / 10);
    }
  }

  lemma {:induction false} ToParseDecimal(s: string)
    requires IsCanonicalDecimal(s)
    ensures ToDecimal(ParseDecimal(s)) == s
  {
    var init := s[..|s| - 1];
    var d := DigitValue(s[|s| - 1]);
    if |s| == 1 {
      assert ParseDecimal(s) == d;
      assert DigitChar(d) == s[0];
    } else {
      assert init[0] == s[0];
      ToParseDecimal(init);
      var m := ParseDecimal(init);
      assert m != 0;
      var n := ParseDecimal(s);
      assert n == m * 10 + d;
      assert n / 10 == m && n % 10 == d;
      assert DigitChar(d) == s[|s| - 1];
      assert s == init + [s[|s| - 1]];
    }
  }

  /** The decimal text of an integer, with '-' for a negative one. */
  function FormatInteger(i: int): (s: string)
    ensures IsIntegerText(s)
  {
    if i < 0 then "-" + ToDecimal(-i) else ToDecimal(i)
  }

  function ParseInteger(s: string): int
    requires IsIntegerText(s)
  {
    if |s| > 0 && s[0] == '-' then -(ParseDecimal(s[1..]) as int) else ParseDecimal(s)
  }

  lemma ParseFormatInteger(i: int)
    ensures ParseInteger(FormatInteger(i)) == i
  {
    if i < 0 {
      assert FormatInteger(i)[1..] == ToDecimal(-i);
      ParseToDecimal(-i);
    } else {
      ParseToDecimal(i);
    }
  }

  lemma FormatParseInteger(s: string)
    requires IsIntegerText(s)
    ensures FormatInteger(ParseInteger(s)) == s
  {
    if |s| > 0 && s[0] == '-' {
      ToParseDecimal(s[1..]);
      assert s == "-" + s[1..];
    } else {
      ToParseDecimal(s);
    }
  }

  /**
   * The text JavaScript gives a Number x with String(x), for the integral
   * values below 10^21 in magnitude; None stands for every other value,
   * whose text (a fraction, an exponent) this model does not produce.
   */
  function FormatNumber(x: real): (r: Option<string>)
    ensures r.Some? <==> IsIntegral(x) && -PlainLimit < x < PlainLimit
    ensures r.Some? ==> IsIntegerText(r.value) && ParseInteger(r.value) as real == x
  {
    if IsIntegral(x) && -PlainLimit < x < PlainLimit then
      ParseFormatInteger(x.Floor);
      Some(FormatInteger(x.Floor))
    else
      None
  }
}
