/** The Python built-ins the runtime leans on when it handles property names:
    `str()` of a number, `int()` of a name, list indexing with negative
    indices, and slicing. */
module PyBuiltins {

  datatype Option<+T> = None | Some(value: T)

  predicate IsDigit(c: char) {
    '0' <= c <= '9'
  }

  predicate AllDigits(s: string) {
    forall i :: 0 <= i < |s| ==> IsDigit(s[i])
  }

  function DigitChar(d: nat): (c: char)
    requires d < 10
    ensures IsDigit(c)
  {
    ('0' as int + d) as char
  }

  function DigitValue(c: char): (d: nat)
    requires IsDigit(c)
    ensures d < 10
  {
    c as int - '0' as int
  }

  /** The decimal text of a natural number, most significant digit first. */
  function NatToDecimal(n: nat): (s: string)
    ensures |s| > 0 && AllDigits(s)
  {
    if n < 10 then [DigitChar(n)] else NatToDecimal(n / 10) + [DigitChar(n % 10)]
  }

  /** `str()` of an integer. */
  function IntToDecimal(n: int): string {
    if n < 0 then "-" + NatToDecimal(-n) else NatToDecimal(n)
  }

  /** The number a run of decimal digits denotes. */
  function DigitsValue(s: string): nat
    requires AllDigits(s)
  {
    if s == [] then 0 else DigitsValue(s[..|s| - 1]) * 10 + DigitValue(s[|s| - 1])
  }

  /** `int()` of a text: an optional sign followed by one or more decimal digits;
      anything else is a ValueError, here None. */
  function ParseInt(s: string): (r: Option<int>)
    ensures r.Some? ==> |s| > 0
  {
    if |s| > 0 && (s[0] == '-' || s[0] == '+') then
      var digits := s[1..];
      if |digits| > 0 && AllDigits(digits) then
        Some(if s[0] == '-' then -(DigitsValue(digits) as int) else DigitsValue(digits))
      else None
    else if |s| > 0 && AllDigits(s) then Some(DigitsValue(s))
    else None
  }

  lemma {:induction false} DecimalRoundTrip(n: nat)
    ensures DigitsValue(NatToDecimal(n)) == n
  {
    if n >= 10 {
      var s := NatToDecimal(n);
      assert s[..|s| - 1] == NatToDecimal(n / 10);
      DecimalRoundTrip(n / 10);
    }
  }

  /** `int(str(n)) == n`: the decimal text of an integer parses back to it. */
  lemma ParseIntRoundTrip(n: int)
    ensures ParseInt(IntToDecimal(n)) == Some(n)
  {
    if n < 0 {
      DecimalRoundTrip(-n);
      assert IntToDecimal(n)[1..] == NatToDecimal(-n);
    } else {
      DecimalRoundTrip(n);
    }
  }

  /** Distinct integers have distinct decimal texts. */
  lemma IntToDecimalInjective(n: int, m: int)
    requires IntToDecimal(n) == IntToDecimal(m)
    ensures n == m
  {
    ParseIntRoundTrip(n);
    ParseIntRoundTrip(m);
  }

  /** Python's reading of index `i` into a list or text of length `n`: a
      negative index counts from the end; None is an IndexError. */
  function PyIndex(i: int, n: nat): (r: Option<nat>)
    ensures r.Some? <==> -(n as int) <= i < n
    ensures r.Some? ==> r.value < n && (r.value == if i >= 0 then i else n + i)
  {
    if 0 <= i < n then Some(i) else if -(n as int) <= i < 0 then Some(n + i) else None
  }

  /** Python's normalisation of slice bound `j` against length `n`. */
  function SliceBound(j: int, n: nat): (b: nat)
    ensures b <= n
    ensures 0 <= j <= n ==> b == j
  {
    if j < 0 then (if j + n < 0 then 0 else j + n) else if j > n then n else j
  }

  /** `s[:i] + t + s[1 + i:]`: the text with position `i` replaced by the whole of `t`. */
  function ReplaceAt(s: string, i: int, t: string): (r: string)
    ensures 0 <= i < |s| ==> r == s[..i] + t + s[i + 1..] && |r| == |s| - 1 + |t|
    ensures i >= |s| ==> r == s + t
  {
    s[..SliceBound(i, |s|)] + t + s[SliceBound(i + 1, |s|)..]
  }
}
