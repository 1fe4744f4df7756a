/** PHP's numeric strings, as `is_numeric` recognises them and `intval`
    converts them.

    A numeric string is
      WS* [+|-] (DIGITS [. DIGITS*] | . DIGITS) [(e|E) [+|-] DIGITS] WS*
    where WS is space, tab, newline, carriage return, vertical tab or form
    feed (the PHP 8 rules, which also admit trailing whitespace). A parsed
    numeric string is kept as a `Numeral` that records every piece of the
    text, so that `Render` gives the text back exactly. */
module PhpNumeric {
  import opened Wrappers
  import opened Decimal

  predicate IsWhitespace(c: char) {
    c == ' ' || c == '\t' || c == '\n' || c == '\r' || c == 11 as char || c == 12 as char
  }

  predicate AllWhitespace(s: string) {
    forall i :: 0 <= i < |s| ==> IsWhitespace(s[i])
  }

  datatype Sign = NoSign | Plus | Minus

  datatype Exponent = Exponent(marker: char, sign: Sign, digits: string)

  datatype Numeral = Numeral(
    lead: string,               // leading whitespace
    sign: Sign,
    whole: string,              // digits before the point
    point: bool,                // whether a '.' is written
    fraction: string,           // digits after the point
    exponent: Option<Exponent>,
    trail: string)              // trailing whitespace

  predicate WellFormedExponent(e: Option<Exponent>) {
    e.Some? ==> (e.value.marker == 'e' || e.value.marker == 'E') && AllDigits(e.value.digits) && |e.value.digits| > 0
  }

  predicate WellFormed(n: Numeral) {
    && AllWhitespace(n.lead)
    && AllDigits(n.whole)
    && AllDigits(n.fraction)
    && (n.point || n.fraction == [])
    && |n.whole| + |n.fraction| > 0
    && WellFormedExponent(n.exponent)
    && AllWhitespace(n.trail)
  }

  function SignText(s: Sign): string {
    match s
    case NoSign => ""
    case Plus => "+"
    case Minus => "-"
  }

  function PointText(point: bool): string {
    if point then "." else ""
  }

  function ExponentText(e: Option<Exponent>): string {
    match e
    case None => ""
    case Some(x) => [x.marker] + (SignText(x.sign) + x.digits)
  }

  /** The text of a numeral. */
  function Render(n: Numeral): string {
    n.lead + (SignText(n.sign) + (n.whole + (PointText(n.point) + (n.fraction + (ExponentText(n.exponent) + n.trail)))))
  }

  // ---------------------------------------------------------------------------
  // Scanning

  /** The length of the longest prefix of `s` whose characters all satisfy `p`. */
  function Span(s: string, p: char -> bool): (k: nat)
    ensures k <= |s|
    ensures forall i :: 0 <= i < k ==> p(s[i])
    ensures k < |s| ==> !p(s[k])
  {
    if s == [] || !p(s[0]) then 0 else 1 + Span(s[1..], p)
  }

  /** Splits `s` after its longest prefix satisfying `p`. */
  function SplitWhile(s: string, p: char -> bool): (r: (string, string))
    ensures r.0 + r.1 == s
    ensures forall i :: 0 <= i < |r.0| ==> p(r.0[i])
    ensures r.1 == [] || !p(r.1[0])
  {
    var k := Span(s, p);
    assert s[..k] + s[k..] == s;
    (s[..k], s[k..])
  }

  function SplitSign(s: string): (r: (Sign, string))
    ensures SignText(r.0) + r.1 == s
    ensures r.0 == NoSign ==> r.1 == [] || (r.1[0] != '+' && r.1[0] != '-')
  {
    if |s| > 0 && s[0] == '+' then (Plus, s[1..])
    else if |s| > 0 && s[0] == '-' then (Minus, s[1..])
    else (NoSign, s)
  }

  function SplitPoint(s: string): (r: (bool, string))
    ensures PointText(r.0) + r.1 == s
    ensures !r.0 ==> r.1 == [] || r.1[0] != '.'
  {
    if |s| > 0 && s[0] == '.' then (true, s[1..]) else (false, s)
  }

  /** An exponent is taken only when at least one digit follows the marker
      and its optional sign; otherwise the text is left for the caller, who
      then finds a character that is not whitespace and rejects. */
  function SplitExponent(s: string): (r: (Option<Exponent>, string))
    ensures ExponentText(r.0) + r.1 == s
    ensures WellFormedExponent(r.0)
    ensures r.0.None? ==> r.1 == s
  {
    if |s| > 0 && (s[0] == 'e' || s[0] == 'E') then
      var signed := SplitSign(s[1..]);
      var digits := SplitWhile(signed.1, IsDigit);
      if |digits.0| > 0 then
        ExponentTextJoin(s, signed.0, digits.0, digits.1);
        (Some(Exponent(s[0], signed.0, digits.0)), digits.1)
      else (None, s)
    else (None, s)
  }

  lemma ExponentTextJoin(s: string, sign: Sign, digits: string, tail: string)
    requires |s| > 0 && SignText(sign) + (digits + tail) == s[1..]
    ensures ExponentText(Some(Exponent(s[0], sign, digits))) + tail == s
  {
    assert [s[0]] + s[1..] == s;
  }

  /** `is_numeric` and the parse behind it, stage by stage: leading
      whitespace, sign, mantissa, exponent, trailing whitespace. */
  function Parse(s: string): Option<Numeral> {
    var (lead, rest) := SplitWhile(s, IsWhitespace);
    ParseSigned(lead, rest)
  }

  function ParseSigned(lead: string, s: string): Option<Numeral> {
    var (sign, rest) := SplitSign(s);
    ParseMantissa(lead, sign, rest)
  }

  /** A mantissa needs a digit before or after the point. */
  function ParseMantissa(lead: string, sign: Sign, s: string): Option<Numeral> {
    var (whole, s1) := SplitWhile(s, IsDigit);
    var (point, s2) := SplitPoint(s1);
    var (fraction, rest) := if point then SplitWhile(s2, IsDigit) else ([], s2);
    if |whole| + |fraction| > 0 then ParseTail(lead, sign, whole, point, fraction, rest) else None
  }

  /** After the mantissa only an exponent and whitespace may follow. */
  function ParseTail(lead: string, sign: Sign, whole: string, point: bool, fraction: string, s: string): Option<Numeral> {
    var (exponent, trail) := SplitExponent(s);
    if AllWhitespace(trail) then Some(Numeral(lead, sign, whole, point, fraction, exponent, trail)) else None
  }

  predicate IsNumeric(s: string) {
    Parse(s).Some?
  }

  // ---------------------------------------------------------------------------
  // Parse and Render are inverse

  lemma SplitWhileOf(a: string, b: string, p: char -> bool)
    requires forall i :: 0 <= i < |a| ==> p(a[i])
    requires b == [] || !p(b[0])
    ensures SplitWhile(a + b, p) == (a, b)
  {
    assert (a + b)[..|a|] == a && (a + b)[|a|..] == b;
  }

  lemma SplitSignOf(sign: Sign, b: string)
    requires b != [] && b[0] != '+' && b[0] != '-'
    ensures SplitSign(SignText(sign) + b) == (sign, b)
  {
    assert ([] + b) == b;
  }

  lemma SplitPointOf(point: bool, b: string)
    requires !point ==> b == [] || b[0] != '.'
    ensures SplitPoint(PointText(point) + b) == (point, b)
  {
    assert ([] + b) == b;
  }

  lemma SplitExponentOf(e: Option<Exponent>, trail: string)
    requires WellFormedExponent(e) && AllWhitespace(trail)
    ensures SplitExponent(ExponentText(e) + trail) == (e, trail)
  {
    if e.Some? {
      SplitSomeExponentOf(e.value, trail);
    } else {
      assert ExponentText(e) + trail == trail;
    }
  }

  lemma SplitSomeExponentOf(x: Exponent, trail: string)
    requires WellFormedExponent(Some(x)) && AllWhitespace(trail)
    ensures SplitExponent(ExponentText(Some(x)) + trail) == (Some(x), trail)
  {
    var rest := SignText(x.sign) + (x.digits + trail);
    var s := [x.marker] + rest;
    assert ExponentText(Some(x)) + trail == s;
    assert s[0] == x.marker && s[1..] == rest;
    SplitSignOf(x.sign, x.digits + trail);
    SplitWhileOf(x.digits, trail, IsDigit);
  }

  lemma ParseTailOf(n: Numeral)
    requires WellFormed(n)
    ensures ParseTail(n.lead, n.sign, n.whole, n.point, n.fraction, ExponentText(n.exponent) + n.trail) == Some(n)
  {
    SplitExponentOf(n.exponent, n.trail);
  }

  lemma ParseMantissaOf(n: Numeral)
    requires WellFormed(n)
    ensures ParseMantissa(n.lead, n.sign, n.whole + (PointText(n.point) + (n.fraction + (ExponentText(n.exponent) + n.trail)))) == Some(n)
  {
    var r5 := ExponentText(n.exponent) + n.trail;
    var r4 := n.fraction + r5;
    var r3 := PointText(n.point) + r4;
    assert r5 == [] || r5[0] == 'e' || r5[0] == 'E' || IsWhitespace(r5[0]);
    assert r3 == [] || r3[0] == '.' || r3[0] == 'e' || r3[0] == 'E' || IsWhitespace(r3[0]);
    SplitWhileOf(n.whole, r3, IsDigit);
    if n.point {
      SplitPointOf(n.point, r4);
      SplitWhileOf(n.fraction, r5, IsDigit);
    } else {
      assert r4 == r5;
      SplitPointOf(n.point, r4);
    }
    ParseTailOf(n);
  }

  lemma ParseSignedOf(n: Numeral)
    requires WellFormed(n)
    ensures ParseSigned(n.lead, SignText(n.sign) + (n.whole + (PointText(n.point) + (n.fraction + (ExponentText(n.exponent) + n.trail))))) == Some(n)
  {
    var r2 := n.whole + (PointText(n.point) + (n.fraction + (ExponentText(n.exponent) + n.trail)));
    assert r2 != [] && (r2[0] == '.' || IsDigit(r2[0]));
    SplitSignOf(n.sign, r2);
    ParseMantissaOf(n);
  }

  /** Every well-formed numeral parses back to itself. */
  lemma {:induction false} ParseRender(n: Numeral)
    requires WellFormed(n)
    ensures Parse(Render(n)) == Some(n)
  {
    var r1 := SignText(n.sign) + (n.whole + (PointText(n.point) + (n.fraction + (ExponentText(n.exponent) + n.trail))));
    assert r1 != [] && (r1[0] == '+' || r1[0] == '-' || r1[0] == '.' || IsDigit(r1[0]));
    SplitWhileOf(n.lead, r1, IsWhitespace);
    ParseSignedOf(n);
  }

  /** Whatever parses is well formed and is exactly the text of its numeral. */
  lemma ParseSound(s: string)
    requires Parse(s).Some?
    ensures WellFormed(Parse(s).value) && Render(Parse(s).value) == s
  {
    var (lead, s1) := SplitWhile(s, IsWhitespace);
    var (sign, s2) := SplitSign(s1);
    var (whole, s3) := SplitWhile(s2, IsDigit);
    var (point, s4) := SplitPoint(s3);
    var (fraction, s5) := if point then SplitWhile(s4, IsDigit) else ([], s4);
    assert fraction + s5 == s4;
    var (exponent, trail) := SplitExponent(s5);
    assert Parse(s).value == Numeral(lead, sign, whole, point, fraction, exponent, trail);
  }

  /** `is_numeric` accepts exactly the texts of well-formed numerals. */
  lemma NumericIffRendered(s: string)
    ensures IsNumeric(s) <==> exists n :: WellFormed(n) && Render(n) == s
  {
    if IsNumeric(s) {
      ParseSound(s);
    }
    if n :| WellFormed(n) && Render(n) == s {
      ParseRender(n);
    }
  }

  // ---------------------------------------------------------------------------
  // Characters of a numeric string

  predicate IsNumericChar(c: char) {
    IsWhitespace(c) || IsDigit(c) || c == '+' || c == '-' || c == '.' || c == 'e' || c == 'E'
  }

  predicate AllNumericChars(s: string) {
    forall i :: 0 <= i < |s| ==> IsNumericChar(s[i])
  }

  lemma AllNumericCharsAppend(a: string, b: string)
    requires AllNumericChars(a) && AllNumericChars(b)
    ensures AllNumericChars(a + b)
  {
  }

  lemma ExponentChars(e: Option<Exponent>)
    requires WellFormedExponent(e)
    ensures AllNumericChars(ExponentText(e))
  {
    if e.Some? {
      var x := e.value;
      AllNumericCharsAppend(SignText(x.sign), x.digits);
      AllNumericCharsAppend([x.marker], SignText(x.sign) + x.digits);
    }
  }

  lemma {:induction false} RenderChars(n: Numeral)
    requires WellFormed(n)
    ensures AllNumericChars(Render(n))
  {
    var t5 := ExponentText(n.exponent) + n.trail;
    ExponentChars(n.exponent);
    AllNumericCharsAppend(ExponentText(n.exponent), n.trail);
    var t4 := n.fraction + t5;
    AllNumericCharsAppend(n.fraction, t5);
    var t3 := PointText(n.point) + t4;
    AllNumericCharsAppend(PointText(n.point), t4);
    var t2 := n.whole + t3;
    AllNumericCharsAppend(n.whole, t3);
    var t1 := SignText(n.sign) + t2;
    AllNumericCharsAppend(SignText(n.sign), t2);
    AllNumericCharsAppend(n.lead, t1);
  }

  /** A numeric string holds only whitespace, digits, signs, a point and an
      exponent marker: no `;`, `|`, `&`, `$`, `(`, backtick or quote. */
  lemma {:induction false} NumericChars(s: string)
    requires IsNumeric(s)
    ensures AllNumericChars(s)
  {
    ParseSound(s);
    RenderChars(Parse(s).value);
  }

  // ---------------------------------------------------------------------------
  // intval

  function ExponentValue(e: Option<Exponent>): int
    requires WellFormedExponent(e)
  {
    match e
    case None => 0
    case Some(x) => if x.sign == Minus then -(DecimalValue(x.digits) as int) else DecimalValue(x.digits)
  }

  /** The magnitude of the numeral truncated to an integer. Its value is
      m * 10^x with m the digits read as an integer and x the exponent less
      the number of fraction digits. */
  function Magnitude(n: Numeral): nat
    requires WellFormed(n)
  {
    AllDigitsAppend(n.whole, n.fraction);
    Shift(DecimalValue(n.whole + n.fraction), ExponentValue(n.exponent) - |n.fraction|)
  }

  /** m * 10^x, truncated when x is negative. */
  function Shift(m: nat, x: int): nat {
    if x >= 0 then m * Pow10(x) else Quotient(m, Pow10(-x))
  }

  function Quotient(a: nat, b: nat): nat
    requires b >= 1
  {
    a / b
  }

  /** `intval` of a numeral: its value truncated toward zero. */
  function NumeralIntval(n: Numeral): int
    requires WellFormed(n)
  {
    if n.sign == Minus then -(Magnitude(n) as int) else Magnitude(n)
  }

  /** `intval` of a numeric string. */
  function Intval(s: string): int
    requires IsNumeric(s)
  {
    ParseSound(s);
    NumeralIntval(Parse(s).value)
  }

  /** Truncation is textual: move the point by the exponent and keep the
      digits in front of it (padding with zeros when the point moves past
      the last digit). */
  lemma {:induction false} MagnitudeIsIntegerPart(n: Numeral)
    requires WellFormed(n)
    ensures var digits := n.whole + n.fraction;
            var p := |n.whole| + ExponentValue(n.exponent);
            Magnitude(n) ==
              if p <= 0 then 0
              else if p <= |digits| then DecimalValue(digits[..p])
              else DecimalValue(digits) * Pow10(p - |digits|)
  {
    var digits := n.whole + n.fraction;
    var p := |n.whole| + ExponentValue(n.exponent);
    var x := ExponentValue(n.exponent) - |n.fraction|;
    assert x == p - |digits|;
    if p <= 0 {
      ShiftPastAllDigits(digits, -x);
    } else if p <= |digits| {
      if x < 0 {
        ShiftInsideDigits(digits, p);
      } else {
        assert digits[..p] == digits;
      }
    }
  }

  /** Dividing by at least 10^|digits| leaves nothing. */
  lemma ShiftPastAllDigits(digits: string, q: nat)
    requires AllDigits(digits) && q >= |digits|
    ensures DecimalValue(digits) / Pow10(q) == 0
  {
    DecimalValueBound(digits);
    Pow10Monotone(|digits|, q);
    DivOfShifted(0, DecimalValue(digits), Pow10(q));
  }

  /** Dividing by 10^k drops the last k digits. */
  lemma ShiftInsideDigits(digits: string, p: nat)
    requires AllDigits(digits) && p <= |digits|
    ensures DecimalValue(digits) / Pow10(|digits| - p) == DecimalValue(digits[..p])
  {
    var hi, lo := digits[..p], digits[p..];
    assert hi + lo == digits;
    DecimalValueAppend(hi, lo);
    DecimalValueBound(lo);
    DivOfShifted(DecimalValue(hi), DecimalValue(lo), Pow10(|lo|));
  }

  lemma DivOfShifted(h: nat, l: nat, b: nat)
    requires l < b
    ensures (h * b + l) / b == h
  {
    var a := h * b + l;
    var q, r := a / b, a % b;
    assert a == q * b + r && 0 <= r < b;
    if q < h {
      MulLeftGrows(h - q, b);
    } else if q > h {
      MulLeftGrows(q - h, b);
    }
  }

  lemma MulLeftGrows(k: int, b: nat)
    requires k >= 1
    ensures k * b >= b
  {
  }

  /** Without an exponent `intval` simply drops the fraction digits. */
  lemma IntvalDropsFraction(n: Numeral)
    requires WellFormed(n) && n.exponent.None?
    ensures NumeralIntval(n) == if n.sign == Minus then -(DecimalValue(n.whole) as int) else DecimalValue(n.whole)
  {
    MagnitudeIsIntegerPart(n);
    var digits := n.whole + n.fraction;
    if |n.whole| > 0 {
      assert digits[..|n.whole|] == n.whole;
    }
  }

  /** An integer printed in decimal is numeric and `intval` gives it back. */
  lemma IntvalOfDecimal(i: int)
    ensures IsNumeric(IntToDecimal(i)) && Intval(IntToDecimal(i)) == i
  {
    var digits := NatToDecimal(if i < 0 then -i else i);
    var n := Numeral("", if i < 0 then Minus else NoSign, digits, false, "", None, "");
    assert Render(n) == IntToDecimal(i);
    ParseRender(n);
    IntvalDropsFraction(n);
  }

}
