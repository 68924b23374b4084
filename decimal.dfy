/** `parseFloat` over exact decimals.

    `parseFloat` reads the longest prefix of its argument that is a decimal literal and
    yields NaN when there is none. Every call in the pipeline passes a string made only
    of digits and '.' that starts with a digit (`NormalizedNumeral` and `OcrNumeral`
    below say so), so the model reads the literal forms such a string can begin with:
    `digits`, `digits.` and `digits.digits`, plus `.digits`. The value is exact; binary
    floating-point rounding is not modelled. */
module Decimal {
  import opened Wrappers
  import opened JsString

  function DigitValue(c: char): (n: nat)
    requires IsDigit(c)
    ensures n <= 9
  {
    (c as int) - ('0' as int)
  }

  /** The value of a string of decimal digits. */
  function DigitsValue(s: string): nat
    requires AllDigits(s)
  {
    if s == [] then 0 else DigitsValue(s[..|s| - 1]) * 10 + DigitValue(s[|s| - 1])
  }

  /** The value of the digits after a decimal point: each digit is worth a tenth of
      the one before it. */
  function FractionValue(s: string): (v: real)
    requires AllDigits(s)
    ensures 0.0 <= v < 1.0
  {
    if s == [] then 0.0 else (DigitValue(s[0]) as real + FractionValue(s[1..])) / 10.0
  }

  /** The value of `intPart.fracPart`. */
  function DecimalValue(intPart: string, fracPart: string): (v: real)
    requires AllDigits(intPart) && AllDigits(fracPart)
    ensures DigitsValue(intPart) as real <= v < DigitsValue(intPart) as real + 1.0
  {
    DigitsValue(intPart) as real + FractionValue(fracPart)
  }

  /** `parseFloat(s)`, `None` standing for NaN: the integer digits, then, after a '.', as
      many fraction digits as follow. */
  function ParseFloat(s: string): (r: Option<real>)
    ensures r.Some? ==> r.value >= 0.0
    ensures r.Some? <==> |s| > 0 && (IsDigit(s[0]) || (s[0] == '.' && |s| > 1 && IsDigit(s[1])))
  {
    var n := DigitsEnd(s, 0);
    if n > 0 then
      var fracStart := if n < |s| && s[n] == '.' then n + 1 else n;
      var fracEnd := DigitsEnd(s, fracStart);
      Some(DecimalValue(s[..n], s[fracStart..fracEnd]))
    else if |s| > 1 && s[0] == '.' && IsDigit(s[1]) then
      Some(DecimalValue("", s[1..DigitsEnd(s, 1)]))
    else None
  }

  /** `parseFloat` reads a whole `int.frac` literal and ignores whatever follows
      it, as long as that does not continue the literal. */
  lemma ParseFloatStopsAfterFraction(intPart: string, fracPart: string, rest: string)
    requires |intPart| > 0 && AllDigits(intPart) && AllDigits(fracPart)
    requires rest == [] || !IsDigit(rest[0])
    ensures ParseFloat(intPart + "." + fracPart + rest) == Some(DecimalValue(intPart, fracPart))
  {
    var s := intPart + "." + fracPart + rest;
    DigitsEndAt(s, 0, |intPart|);
    DigitsEndAt(s, |intPart| + 1, |intPart| + 1 + |fracPart|);
    assert s[..|intPart|] == intPart;
    assert s[|intPart| + 1..|intPart| + 1 + |fracPart|] == fracPart;
  }

  /** `parseFloat` reads a run of digits as an integer and ignores what follows it,
      as long as that is not a '.' or a digit. */
  lemma ParseFloatStopsAfterInteger(intPart: string, rest: string)
    requires |intPart| > 0 && AllDigits(intPart)
    requires rest == [] || (!IsDigit(rest[0]) && rest[0] != '.')
    ensures ParseFloat(intPart + rest) == Some(DigitsValue(intPart) as real)
  {
    var s := intPart + rest;
    var n := |intPart|;
    assert rest != [] ==> s[n] == rest[0];
    DigitsEndAt(s, 0, n);
    DigitsEndAt(s, n, n);
    assert s[..n] == intPart;
    assert s[n..n] == "";
    assert DigitsValue("") == 0 && FractionValue("") == 0.0;
    assert DecimalValue(intPart, "") == DigitsValue(intPart) as real;
    assert !(n < |s| && s[n] == '.');
  }

  /** Where a run of digits starting at `j` ends, given the run. */
  lemma DigitsEndAt(s: string, j: nat, e: nat)
    requires j <= e <= |s|
    requires forall k :: j <= k < e ==> IsDigit(s[k])
    requires e == |s| || !IsDigit(s[e])
    ensures DigitsEnd(s, j) == e
    decreases e - j
  {
    if j < e { DigitsEndAt(s, j + 1, e); }
  }
}
