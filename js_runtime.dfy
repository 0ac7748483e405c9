/** The few pieces of JavaScript runtime behaviour the utilities rely on:
    optional values, `Math.round`, `String.prototype.trim` and the decimal
    rendering of an integer-valued `number` in a template literal. */
module JsRuntime {

  /** `undefined` (or a value whose absence matters) versus a present value. */
  datatype Option<+T> = None | Some(value: T)

  // ---------------------------------------------------------------------
  // Math.round

  /** `Math.round(n / d)` for an integer numerator and a positive integer
      divisor. Dafny's `/` with a positive divisor is floor division, so
      this is `floor(n / d + 1/2)`. */
  function RoundDiv(n: int, d: int): int
    requires d > 0
  {
    (2 * n + d) / (2 * d)
  }

  /** The rounded quotient is the nearest integer to `n / d`, a half
      rounding toward +infinity: `r - 1/2 <= n / d < r + 1/2`. */
  lemma RoundDivNearest(n: int, d: int)
    requires d > 0
    ensures var r := RoundDiv(n, d); 2 * d * r <= 2 * n + d < 2 * d * (r + 1)
  {
    var q, m := (2 * n + d) / (2 * d), (2 * n + d) % (2 * d);
    assert 2 * n + d == 2 * d * q + m && 0 <= m < 2 * d;
  }

  /** The rounded quotient lies below `k` exactly when `n / d < k - 1/2`. */
  lemma RoundDivBelow(n: int, d: int, k: int)
    requires d > 0
    ensures RoundDiv(n, d) < k <==> 2 * n + d < 2 * d * k
  {
    var r := RoundDiv(n, d);
    RoundDivNearest(n, d);
    if r < k {
      assert r + 1 <= k;
      assert 2 * d * (r + 1) <= 2 * d * k by { MulMonotone(2 * d, r + 1, k); }
    } else {
      assert 2 * d * k <= 2 * d * r by { MulMonotone(2 * d, k, r); }
    }
  }

  lemma MulMonotone(c: int, x: int, y: int)
    requires c >= 0 && x <= y
    ensures c * x <= c * y
  {
    assert c * y - c * x == c * (y - x);
  }

  /** Rounding preserves order. */
  lemma RoundDivMonotone(m: int, n: int, d: int)
    requires d > 0 && m <= n
    ensures RoundDiv(m, d) <= RoundDiv(n, d)
  {
    var rn := RoundDiv(n, d);
    RoundDivBelow(m, d, rn + 1);
  }

  /** Rounding a non-negative amount by a divisor of at least one never
      grows it and never makes it negative. */
  lemma RoundDivWithin(n: int, d: int)
    requires n >= 0 && d >= 1
    ensures 0 <= RoundDiv(n, d) <= n
  {
    RoundDivBelow(n, d, n + 1);
    RoundDivBelow(n, d, 0);
    assert 2 * d * (n + 1) == 2 * d * n + 2 * d;
    MulMonotone(2 * n, 1, d);
  }

  // ---------------------------------------------------------------------
  // String.prototype.trim

  /** The code points that ECMAScript's WhiteSpace and LineTerminator
      productions accept; `trim` strips exactly these from both ends. */
  predicate IsWhitespace(c: char) {
    || c == '\U{9}' || c == '\U{A}' || c == '\U{B}' || c == '\U{C}' || c == '\U{D}'
    || c == ' ' || c == '\U{A0}' || c == '\U{1680}'
    || ('\U{2000}' <= c <= '\U{200A}')
    || c == '\U{2028}' || c == '\U{2029}' || c == '\U{202F}' || c == '\U{205F}'
    || c == '\U{3000}' || c == '\U{FEFF}'
  }

  /** Removes the longest all-whitespace prefix. */
  function TrimStart(s: string): (r: string)
    ensures |r| <= |s| && r == s[|s| - |r|..]
    ensures r == [] || !IsWhitespace(r[0])
    ensures forall i :: 0 <= i < |s| - |r| ==> IsWhitespace(s[i])
  {
    if s != [] && IsWhitespace(s[0]) then TrimStart(s[1..]) else s
  }

  /** Removes the longest all-whitespace suffix. */
  function TrimEnd(s: string): (r: string)
    ensures |r| <= |s| && r == s[..|r|]
    ensures r == [] || !IsWhitespace(r[|r| - 1])
    ensures forall i :: |r| <= i < |s| ==> IsWhitespace(s[i])
  {
    if s != [] && IsWhitespace(s[|s| - 1]) then TrimEnd(s[..|s| - 1]) else s
  }

  /** `s.trim()`. */
  function Trim(s: string): (r: string)
    ensures r == [] || (!IsWhitespace(r[0]) && !IsWhitespace(r[|r| - 1]))
  {
    TrimEnd(TrimStart(s))
  }

  // ---------------------------------------------------------------------
  // Integer-valued numbers rendered as text

  predicate IsDigit(c: char) {
    '0' <= c <= '9'
  }

  function DigitChar(d: nat): (c: char)
    requires d < 10
    ensures IsDigit(c)
  {
    ('0' as int + d) as char
  }

  function DigitValue(c: char): (d: nat)
    requires IsDigit(c)
    ensures d < 10 && DigitChar(d) == c
  {
    (c as int - '0' as int)
  }

  /** Decimal digits of a natural number, most significant first, no
      leading zero. */
  function NatToDecimal(n: nat): (s: string)
    ensures |s| > 0 && (forall i :: 0 <= i < |s| ==> IsDigit(s[i]))
    ensures |s| > 1 ==> s[0] != '0'
  {
    if n < 10 then [DigitChar(n)] else NatToDecimal(n / 10) + [DigitChar(n % 10)]
  }

  /** `${n}` for an integer-valued number: an optional minus sign and the
      decimal digits of the magnitude. */
  function IntToDecimal(n: int): (s: string)
    ensures |s| > 0 && (n < 0 <==> s[0] == '-')
    ensures var digits := if n < 0 then s[1..] else s;
      digits != [] && forall i :: 0 <= i < |digits| ==> IsDigit(digits[i])
  {
    if n < 0 then "-" + NatToDecimal(-n) else NatToDecimal(n)
  }

  /** Reads a string of decimal digits as a natural number. */
  function DecimalValue(s: string): nat
    requires forall i :: 0 <= i < |s| ==> IsDigit(s[i])
  {
    if s == [] then 0 else DecimalValue(s[..|s| - 1]) * 10 + DigitValue(s[|s| - 1])
  }

  /** Reads the text of an integer back: an optional minus sign followed by
      at least one digit. */
  function ParseInt(s: string): (r: Option<int>)
  {
    if |s| > 1 && s[0] == '-' && (forall i :: 1 <= i < |s| ==> IsDigit(s[i])) then
      Some(0 - DecimalValue(s[1..]) as int)
    else if |s| > 0 && (forall i :: 0 <= i < |s| ==> IsDigit(s[i])) then
      Some(DecimalValue(s) as int)
    else
      None
  }

  lemma {:induction false} NatToDecimalRoundTrip(n: nat)
    ensures DecimalValue(NatToDecimal(n)) == n
  {
    var s := NatToDecimal(n);
    if n >= 10 {
      NatToDecimalRoundTrip(n / 10);
      assert s[..|s| - 1] == NatToDecimal(n / 10);
    }
  }

  /** The decimal text of an integer reads back as that integer. */
  lemma IntToDecimalRoundTrip(n: int)
    ensures ParseInt(IntToDecimal(n)) == Some(n)
  {
    if n < 0 {
      NatToDecimalRoundTrip(-n);
      assert IntToDecimal(n)[1..] == NatToDecimal(-n);
    } else {
      NatToDecimalRoundTrip(n);
    }
  }
}
