/**
 The conversions `strtol` (section 7.22.1.4 of ISO/IEC 9899:2011) and `strtold`
 (section 7.22.1.3), which src/common/json/json.c calls on the text from a token's start.

 `long` has 64 bits and `int` 32. A floating-point result is the exact number that the
 text denotes, as a mantissa and an exponent; rounding is not modelled.
 */
module Numbers {
  import opened Common
  import opened Text
  import opened Json

  predicate IsSpace(c: char) {
    c == ' ' || '\t' <= c <= '\r'
  }

  /** What ends a primitive token, besides the end of the text. */
  predicate IsDelimiter(c: char) {
    IsWs(c) || c == ',' || c == ']' || c == '}' || c == ':'
  }

  predicate Ends(k: string) {
    k == "" || IsDelimiter(k[0])
  }

  function AfterSpace(s: string): string {
    s[Span(s, IsSpace)..]
  }

  predicate IsNegative(s: string) {
    s != "" && s[0] == '-'
  }

  function AfterSign(s: string): string {
    if s != "" && (s[0] == '-' || s[0] == '+') then s[1..] else s
  }

  function Digits(s: string): (d: string)
    ensures AllDigits(d)
  {
    s[..Span(s, IsDigit)]
  }

  function Clamp(i: int): int {
    if i < -TWO_63 then -TWO_63 else if i >= TWO_63 then TWO_63 - 1 else i
  }

  function Signed(negative: bool, n: nat): int {
    if negative then -(n as int) else n as int
  }

  /** The decimal digits with their sign. */
  function SignedValue(negative: bool, digits: string): int
    requires AllDigits(digits)
  {
    Signed(negative, Evaluate(digits, 10))
  }

  function Strtol(s: string): int {
    var t := AfterSpace(s);
    Clamp(SignedValue(IsNegative(t), Digits(AfterSign(t))))
  }

  /** The conversion of a `long` to `int`: the low 32 bits, signed. */
  function ToInt(l: int): CInt {
    var r := l % (2 * TWO_31);
    if r >= TWO_31 then r - 2 * TWO_31 else r
  }

  /** `(int)strtol(s)`. */
  function IntOf(s: string): CInt {
    ToInt(Strtol(s))
  }

  // ----- floating point -----------------------------------------------------------------

  /** `Finite` is the mantissa times the base to the power of the exponent. */
  datatype Double =
    | Finite(mantissa: int, base: nat, exponent: int)
    | Infinite(negative: bool)
    | NotANumber

  datatype Radix = Ten | Sixteen {
    function Base(): NumberBase {
      if Ten? then 10 else 16
    }

    /** What one step of the exponent multiplies by. */
    function ExponentBase(): nat {
      if Ten? then 10 else 2
    }

    /** How many steps of the exponent one digit is worth. */
    function DigitWeight(): nat {
      if Ten? then 1 else 4
    }

    predicate IsMarker(c: char) {
      if Ten? then c == 'e' || c == 'E' else c == 'p' || c == 'P'
    }

    function DigitTest(): char -> bool {
      if Ten? then IsDigit else IsHexDigit
    }
  }

  /** The exponent part at the start of `s`, or 0 if there is none. */
  function Exponent(s: string, radix: Radix): int {
    if s == "" || !radix.IsMarker(s[0]) then 0
    else SignedValue(IsNegative(s[1..]), Digits(AfterSign(s[1..])))
  }

  /** The digits at the start of `s`. */
  function Whole(s: string, radix: Radix): (d: string)
    ensures d <= s && AllHexDigits(d)
  {
    s[..Span(s, radix.DigitTest())]
  }

  function AfterWhole(s: string, radix: Radix): string {
    s[Span(s, radix.DigitTest())..]
  }

  predicate HasPoint(s: string) {
    s != "" && s[0] == '.'
  }

  /** The digits after a point at the start of `s`. */
  function Fraction(s: string, radix: Radix): (d: string)
    ensures AllHexDigits(d)
  {
    if HasPoint(s) then Whole(s[1..], radix) else ""
  }

  function AfterFraction(s: string, radix: Radix): string {
    if HasPoint(s) then AfterWhole(s[1..], radix) else s
  }

  /** The number with the given digits before and after the point, sign and exponent. */
  function Compose(negative: bool, w: string, f: string, exponent: int, radix: Radix): Double
    requires AllHexDigits(w) && AllHexDigits(f)
  {
    if w + f == "" then Finite(0, radix.ExponentBase(), 0)
    else
      Finite(Signed(negative, Evaluate(w + f, radix.Base())), radix.ExponentBase(),
             exponent - radix.DigitWeight() * |f|)
  }

  function Magnitude(negative: bool, s: string, radix: Radix): Double {
    var t := AfterWhole(s, radix);
    Compose(negative, Whole(s, radix), Fraction(t, radix), Exponent(AfterFraction(t, radix), radix), radix)
  }

  /** `0x` in front of a hexadecimal digit, or of a point and a digit. */
  predicate IsHex(s: string) {
    && |s| > 2 && s[0] == '0' && (s[1] == 'x' || s[1] == 'X')
    && (IsHexDigit(s[2]) || (s[2] == '.' && |s| > 3 && IsHexDigit(s[3])))
  }

  /** The words for infinity and not-a-number, in any case. */
  predicate SaysInf(u: string) {
    && |u| >= 3 && (u[0] == 'i' || u[0] == 'I') && (u[1] == 'n' || u[1] == 'N') && (u[2] == 'f' || u[2] == 'F')
  }

  predicate SaysNan(u: string) {
    && |u| >= 3 && (u[0] == 'n' || u[0] == 'N') && (u[1] == 'a' || u[1] == 'A') && (u[2] == 'n' || u[2] == 'N')
  }

  function Float(negative: bool, u: string): Double {
    if SaysInf(u) then Infinite(negative)
    else if SaysNan(u) then NotANumber
    else if IsHex(u) then Magnitude(negative, u[2..], Sixteen)
    else Magnitude(negative, u, Ten)
  }

  function Strtold(s: string): Double {
    if s != "" && IsSpace(s[0]) then Strtold(s[1..]) else Float(IsNegative(s), AfterSign(s))
  }

  // ----- the conversions stop at a token's end ------------------------------------------

  lemma DigitsStop(a: string, k: string)
    requires Ends(k)
    ensures Digits(a + k) == Digits(a)
  {
    SpanStops(a, k, IsDigit);
    assert (a + k)[..Span(a, IsDigit)] == a[..Span(a, IsDigit)];
  }

  lemma SignStops(a: string, k: string)
    requires Ends(k)
    ensures AfterSign(a + k) == AfterSign(a) + k && IsNegative(a + k) == IsNegative(a)
  {
    if a == "" {
      assert a + k == k;
      assert AfterSign(k) == k && AfterSign(a) + k == k;
    } else {
      assert (a + k)[0] == a[0];
      assert (a + k)[1..] == a[1..] + k;
      if a[0] == '-' || a[0] == '+' {
        assert AfterSign(a + k) == a[1..] + k;
      } else {
        assert AfterSign(a + k) == a + k;
      }
    }
  }

  lemma NoSpace(a: string)
    requires a != "" && !IsSpace(a[0])
    ensures AfterSpace(a) == a
  {
  }

  /** `strtol` on a token that a delimiter ends reads the token's own characters only. */
  lemma StrtolStops(a: string, k: string)
    requires a != "" && !IsSpace(a[0]) && Ends(k)
    ensures Strtol(a + k) == Strtol(a)
  {
    NoSpace(a);
    NoSpace(a + k);
    SignStops(a, k);
    DigitsStop(AfterSign(a), k);
    assert Digits(AfterSign(a + k)) == Digits(AfterSign(a));
  }

  lemma WholeStops(a: string, k: string, radix: Radix)
    requires Ends(k)
    ensures Whole(a + k, radix) == Whole(a, radix)
    ensures AfterWhole(a + k, radix) == AfterWhole(a, radix) + k
  {
    SpanStops(a, k, radix.DigitTest());
    var n := Span(a, radix.DigitTest());
    assert (a + k)[..n] == a[..n];
    assert (a + k)[n..] == a[n..] + k;
  }

  lemma FractionStops(a: string, k: string, radix: Radix)
    requires Ends(k)
    ensures Fraction(a + k, radix) == Fraction(a, radix)
    ensures AfterFraction(a + k, radix) == AfterFraction(a, radix) + k
  {
    if a == "" {
      assert a + k == k;
    } else {
      assert (a + k)[0] == a[0];
      if HasPoint(a) {
        WholeStops(a[1..], k, radix);
        assert (a + k)[1..] == a[1..] + k;
      }
    }
  }

  lemma ExponentStops(a: string, k: string, radix: Radix)
    requires Ends(k)
    ensures Exponent(a + k, radix) == Exponent(a, radix)
  {
    if a == "" {
      assert a + k == k;
    } else {
      assert (a + k)[1..] == a[1..] + k;
      SignStops(a[1..], k);
      DigitsStop(AfterSign(a[1..]), k);
    }
  }

  lemma MagnitudeStops(negative: bool, a: string, k: string, radix: Radix)
    requires Ends(k)
    ensures Magnitude(negative, a + k, radix) == Magnitude(negative, a, radix)
  {
    WholeStops(a, k, radix);
    var t := AfterWhole(a, radix);
    FractionStops(t, k, radix);
    ExponentStops(AfterFraction(t, radix), k, radix);
  }

  lemma WordStops(a: string, k: string)
    requires Ends(k)
    ensures SaysInf(a + k) == SaysInf(a) && SaysNan(a + k) == SaysNan(a)
  {
    if |a| < 3 && k != "" && |a + k| >= 3 {
      assert (a + k)[|a|] == k[0];
    }
  }

  lemma HexStops(a: string, k: string)
    requires Ends(k)
    ensures IsHex(a + k) == IsHex(a)
  {
    if k != "" {
      assert (a + k)[|a|] == k[0];
    }
  }

  lemma HexDigitsStop(negative: bool, u: string, k: string)
    requires Ends(k)
    ensures IsHex(u) ==> Magnitude(negative, (u + k)[2..], Sixteen) == Magnitude(negative, u[2..], Sixteen)
  {
    if IsHex(u) {
      assert (u + k)[2..] == u[2..] + k;
      MagnitudeStops(negative, u[2..], k, Sixteen);
    }
  }

  lemma FloatStops(negative: bool, u: string, k: string)
    requires Ends(k)
    ensures Float(negative, u + k) == Float(negative, u)
  {
    WordStops(u, k);
    HexStops(u, k);
    HexDigitsStop(negative, u, k);
    MagnitudeStops(negative, u, k, Ten);
  }

  /** `strtold` on a token that a delimiter ends reads the token's own characters only. */
  lemma StrtoldStops(a: string, k: string)
    requires a != "" && !IsSpace(a[0]) && Ends(k)
    ensures Strtold(a + k) == Strtold(a)
  {
    SignStops(a, k);
    StrtoldParts(a, AfterSign(a));
    StrtoldParts(a + k, AfterSign(a) + k);
    FloatStops(IsNegative(a), AfterSign(a), k);
  }

  lemma StrtoldParts(s: string, u: string)
    requires s != "" && !IsSpace(s[0]) && AfterSign(s) == u
    ensures Strtold(s) == Float(IsNegative(s), u)
  {
    NoSpace(s);
  }

  // ----- what the conversions denote ----------------------------------------------------

  /** An optional minus sign and digits, as many as there are. */
  predicate IsInteger(s: string) {
    AfterMinus(s) != "" && AllDigits(AfterMinus(s))
  }

  function AfterMinus(s: string): string {
    if IsNegative(s) then s[1..] else s
  }

  function Denoted(s: string): int
    requires IsInteger(s)
  {
    SignedValue(IsNegative(s), AfterMinus(s))
  }

  lemma AllIsWhole(d: string)
    requires AllDigits(d)
    ensures Span(d, IsDigit) == |d| && d[..|d|] == d && d[|d|..] == ""
  {
    SpanExact(d, "", IsDigit);
    assert d + "" == d;
  }

  lemma NegativeParts(u: string)
    requires u != "" && IsDigit(u[0])
    ensures var s := "-" + u; AfterSpace(s) == s && AfterSign(s) == u && IsNegative(s)
  {
    NoSpace("-" + u);
  }

  lemma PositiveParts(u: string)
    requires u != "" && IsDigit(u[0])
    ensures AfterSpace(u) == u && AfterSign(u) == u && !IsNegative(u)
  {
    NoSpace(u);
  }

  /** The limits of `long` and `int` in figures. */
  lemma Limits(v: int)
    ensures Clamp(v) == if v < -9223372036854775808 then -9223372036854775808
                        else if v > 9223372036854775807 then 9223372036854775807 else v
    ensures -2147483648 <= ToInt(v) <= 2147483647 && (v - ToInt(v)) % 4294967296 == 0
    ensures ToInt(Clamp(v)) == v <==> -2147483648 <= v <= 2147483647
  {
  }

  lemma JoinStrtol(s: string, t: string, d: string)
    requires AfterSpace(s) == t && Digits(AfterSign(t)) == d
    ensures AllDigits(d) && Strtol(s) == Clamp(SignedValue(IsNegative(t), d))
  {
  }

  /** `strtol` in general: white space, a sign, digits, and whatever follows them. */
  lemma StrtolValue(gap: string, sign: string, digits: string, k: string)
    requires (forall i :: 0 <= i < |gap| ==> gap[i] == ' ' || 9 <= gap[i] as int <= 13) && sign in ["", "+", "-"]
    requires digits != "" && AllDigits(digits) && (k == "" || !IsDigit(k[0]))
    ensures var v: int := if sign == "-" then -(Evaluate(digits, 10) as int) else Evaluate(digits, 10) as int;
            Strtol(gap + (sign + (digits + k)))
            == if v < -9223372036854775808 then -9223372036854775808
               else if v > 9223372036854775807 then 9223372036854775807 else v
  {
    var t := sign + (digits + k);
    assert (digits + k)[0] == digits[0];
    SignedStart(sign, digits + k);
    SpanExact(gap, t, IsSpace);
    SpanExact(digits, k, IsDigit);
    JoinStrtol(gap + t, t, digits);
    Limits(SignedValue(sign == "-", digits));
  }

  lemma SignedStart(sign: string, u: string)
    requires sign in ["", "+", "-"] && u != "" && IsDigit(u[0])
    ensures var t := sign + u; AfterSign(t) == u && (IsNegative(t) <==> sign == "-") && !IsSpace(t[0])
  {
  }

  /** On an integer the result is congruent to the number denoted modulo two to the power 32
      if that fits a `long`, and equal to it exactly if it fits an `int`; beyond `long` it is
      the low half of the limit. */
  lemma IntOfInteger(s: string)
    requires IsInteger(s)
    ensures IntOf(s) == Denoted(s) <==> -2147483648 <= Denoted(s) <= 2147483647
    ensures -9223372036854775808 <= Denoted(s) <= 9223372036854775807 ==> (Denoted(s) - IntOf(s)) % 4294967296 == 0
    ensures Denoted(s) > 9223372036854775807 ==> IntOf(s) == -1
    ensures Denoted(s) < -9223372036854775808 ==> IntOf(s) == 0
  {
    var d := AfterMinus(s);
    assert IsDigit(d[0]);
    if IsNegative(s) {
      assert s == "-" + d;
      NegativeParts(d);
    } else {
      PositiveParts(d);
    }
    AllIsWhole(d);
    assert Digits(d) == d;
    assert Strtol(s) == Clamp(Denoted(s));
    Limits(Denoted(s));
    Limits(Clamp(Denoted(s)));
  }

  lemma IntOfDecimal(i: CInt)
    ensures IntOf(SignedDecimal(i)) == i
  {
    var d := Decimal(if i < 0 then -(i as int) else i as int);
    DecimalValue(if i < 0 then -(i as int) else i as int);
    var s := SignedDecimal(i);
    assert IsDigit(d[0]);
    assert AfterMinus(s) == d;
    IntOfInteger(s);
  }

  /** Exactly `k` digits. */
  function Padded(n: nat, k: nat): (s: string)
    ensures |s| == k && AllDigits(s)
    decreases k
  {
    if k == 0 then "" else Padded(n / 10, k - 1) + [DigitChar(n % 10)]
  }

  lemma {:induction false} PaddedValue(n: nat, k: nat)
    requires n < Pow(10, k)
    decreases k
    ensures Evaluate(Padded(n, k), 10) == n
  {
    if k > 0 {
      PaddedValue(n / 10, k - 1);
      var s := Padded(n, k);
      assert s[..|s| - 1] == Padded(n / 10, k - 1);
    }
  }

  /** The decimal `m` times ten to the power `-scale`, written out with `scale` digits. */
  function Fixed(m: int, scale: nat): string {
    if m < 0 then "-" + Unsigned(-m, scale) else Unsigned(m, scale)
  }

  function Unsigned(n: nat, scale: nat): string {
    if scale == 0 then Decimal(n) else FixedDigits(n, scale)
  }

  function FixedDigits(n: nat, scale: nat): string {
    var p := Pow(10, scale);
    Decimal(n / p) + ("." + Padded(n % p, scale))
  }

  lemma FixedDigitsStart(n: nat, scale: nat)
    ensures var s, w := FixedDigits(n, scale), Decimal(n / Pow(10, scale));
            s != "" && IsDigit(s[0]) && s[0] == w[0] && !IsHex(s)
  {
    var p := Pow(10, scale);
    var w := Decimal(n / p);
    var s := FixedDigits(n, scale);
    assert s[0] == w[0];
    assert |w| > 1 ==> s[1] == w[1] && IsDigit(w[1]);
    assert |w| == 1 ==> s[1] == '.';
  }

  lemma PointStops(w: string, f: string)
    requires AllDigits(w) && AllDigits(f)
    ensures var s := w + ("." + f);
            && Whole(s, Ten) == w && AfterWhole(s, Ten) == "." + f
            && Fraction("." + f, Ten) == f && AfterFraction("." + f, Ten) == ""
  {
    SpanExact(w, "." + f, IsDigit);
    assert ("." + f)[1..] == f;
    AllIsWhole(f);
  }

  lemma DivMod(n: nat, p: nat)
    requires p > 0
    ensures n / p * p + n % p == n
  {
  }

  lemma FixedDigitsMagnitude(negative: bool, n: nat, scale: nat)
    ensures Magnitude(negative, FixedDigits(n, scale), Ten) == Finite(Signed(negative, n), 10, -(scale as int))
  {
    var p := Pow(10, scale);
    var w, f := Decimal(n / p), Padded(n % p, scale);
    PointStops(w, f);
    DecimalValue(n / p);
    PaddedValue(n % p, scale);
    EvaluateConcat(w, f, 10);
    DivMod(n, p);
    assert Evaluate(w + f, 10) == n;
  }

  lemma DecimalMagnitude(negative: bool, n: nat)
    ensures Magnitude(negative, Decimal(n), Ten) == Finite(Signed(negative, n), 10, 0)
    ensures !IsHex(Decimal(n))
  {
    var d := Decimal(n);
    AllIsWhole(d);
    assert d + "" == d;
    DecimalValue(n);
    assert |d| > 1 ==> IsDigit(d[1]);
  }

  lemma UnsignedMagnitude(negative: bool, n: nat, scale: nat)
    ensures var u := Unsigned(n, scale);
            && u != "" && IsDigit(u[0]) && !IsHex(u)
            && Magnitude(negative, u, Ten) == Finite(Signed(negative, n), 10, -(scale as int))
  {
    if scale == 0 {
      DecimalMagnitude(negative, n);
    } else {
      FixedDigitsStart(n, scale);
      FixedDigitsMagnitude(negative, n, scale);
    }
  }

  lemma FloatOfDigits(negative: bool, u: string)
    requires u != "" && IsDigit(u[0]) && !IsHex(u)
    ensures Float(negative, u) == Magnitude(negative, u, Ten)
  {
  }

  /** Writing a decimal and converting it back gives the same number. */
  lemma DoubleOfFixed(m: int, scale: nat)
    ensures Strtold(Fixed(m, scale)) == Finite(m, 10, -(scale as int))
  {
    var n := if m < 0 then -m else m;
    var u := Unsigned(n, scale);
    UnsignedMagnitude(m < 0, n, scale);
    FloatOfDigits(m < 0, u);
    if m < 0 {
      NegativeParts(u);
    } else {
      PositiveParts(u);
    }
  }

  /** A written decimal is a JSON number. */
  lemma FixedIsNumber(m: int, scale: nat)
    ensures IsNumber(Fixed(m, scale))
  {
    var n := if m < 0 then -m else m;
    if scale == 0 {
      SignedDecimalIsNumber(m);
    } else {
      FixedDigitsIsNumber(n, scale);
      var u := FixedDigits(n, scale);
      assert ("-" + u)[1..] == u;
    }
  }

  lemma FixedDigitsIsNumber(n: nat, scale: nat)
    requires scale > 0
    ensures IsNumber(FixedDigits(n, scale)) && FixedDigits(n, scale)[0] != '-'
  {
    var p := Pow(10, scale);
    var w, f := Decimal(n / p), Padded(n % p, scale);
    FixedDigitsStart(n, scale);
    DecimalHead(n / p);
    PointStops(w, f);
    AllIsWhole(f);
    assert ("." + f)[1..] == f;
    assert ("." + f)[1 + |f|..] == "";
  }

  // ----- every notation that the conversions know ---------------------------------------

  /** The parts of a number as it is written; absent parts are empty. */
  datatype Notation = Notation(
    sign: string, whole: string, point: string, fraction: string, marker: string, expSign: string, expDigits: string)

  /** Digits with at most one point, and an exponent with its digits, if any. */
  predicate HasParts(n: Notation, letters: seq<string>) {
    && (n.point == "." || (n.point == "" && n.fraction == ""))
    && n.whole + n.fraction != "" && AllHexDigits(n.whole) && AllHexDigits(n.fraction) && AllDigits(n.expDigits)
    && if n.marker == "" then n.expSign == "" && n.expDigits == ""
       else n.marker in letters && n.expSign in ["", "+", "-"] && n.expDigits != ""
  }

  function ExponentText(n: Notation): string {
    n.marker + (n.expSign + n.expDigits)
  }

  /** The number without its sign. */
  function NotationText(n: Notation): string {
    n.whole + (n.point + (n.fraction + ExponentText(n)))
  }

  function ExponentValue(n: Notation): int
    requires AllDigits(n.expDigits)
  {
    if n.expSign == "-" then -(Evaluate(n.expDigits, 10) as int) else Evaluate(n.expDigits, 10)
  }

  lemma ExponentOfText(n: Notation, radix: Radix)
    requires HasParts(n, if radix.Ten? then ["e", "E"] else ["p", "P"])
    ensures Exponent(ExponentText(n), radix) == ExponentValue(n)
    ensures ExponentText(n) == "" || radix.IsMarker(ExponentText(n)[0])
  {
    if n.marker != "" {
      var t := n.expSign + n.expDigits;
      assert ExponentText(n)[1..] == t && IsDigit(n.expDigits[0]);
      assert AfterSign(t) == n.expDigits && (IsNegative(t) <==> n.expSign == "-");
      AllIsWhole(n.expDigits);
    }
  }

  /** A marker is no digit in its radix. */
  lemma MarkerEndsDigits(c: char, radix: Radix)
    requires radix.IsMarker(c) || c == '.'
    ensures !radix.DigitTest()(c)
  {
  }

  predicate AllOf(s: string, radix: Radix) {
    forall i :: 0 <= i < |s| ==> radix.DigitTest()(s[i])
  }

  lemma FractionOfParts(point: string, f: string, x: string, radix: Radix)
    requires point == "." || (point == "" && f == "")
    requires AllOf(f, radix) && (x == "" || radix.IsMarker(x[0]))
    ensures var t := point + (f + x);
            && Fraction(t, radix) == f && AfterFraction(t, radix) == x
            && (t == "" || t[0] == '.' || radix.IsMarker(t[0]))
  {
    var t := point + (f + x);
    if x != "" {
      MarkerEndsDigits(x[0], radix);
    }
    SpanExact(f, x, radix.DigitTest());
    if point == "." {
      assert t[0] == '.' && t[1..] == f + x;
    } else {
      assert t == x;
    }
  }

  lemma WholeOfParts(w: string, t: string, radix: Radix)
    requires AllOf(w, radix) && (t == "" || t[0] == '.' || radix.IsMarker(t[0]))
    ensures Whole(w + t, radix) == w && AfterWhole(w + t, radix) == t
  {
    if t != "" {
      MarkerEndsDigits(t[0], radix);
    }
    SpanExact(w, t, radix.DigitTest());
  }

  lemma MagnitudeOfParts(negative: bool, n: Notation, radix: Radix)
    requires HasParts(n, if radix.Ten? then ["e", "E"] else ["p", "P"])
    requires AllOf(n.whole, radix) && AllOf(n.fraction, radix)
    ensures Magnitude(negative, NotationText(n), radix)
         == Compose(negative, n.whole, n.fraction, ExponentValue(n), radix)
  {
    ExponentOfText(n, radix);
    FractionOfParts(n.point, n.fraction, ExponentText(n), radix);
    WholeOfParts(n.whole, n.point + (n.fraction + ExponentText(n)), radix);
    JoinMagnitude(negative, NotationText(n), n.whole, n.point + (n.fraction + ExponentText(n)), n.fraction,
                  ExponentText(n), radix);
  }

  lemma JoinMagnitude(negative: bool, s: string, w: string, t: string, f: string, x: string, radix: Radix)
    requires Whole(s, radix) == w && AfterWhole(s, radix) == t
    requires Fraction(t, radix) == f && AfterFraction(t, radix) == x
    ensures AllHexDigits(w) && AllHexDigits(f)
    ensures Magnitude(negative, s, radix) == Compose(negative, w, f, Exponent(x, radix), radix)
  {
  }

  /** Section 6 numbers: decimal digits throughout, and some in front of the point. */
  predicate IsDecimalNotation(n: Notation) {
    HasParts(n, ["e", "E"]) && n.sign in ["", "-"] && AllDigits(n.whole) && AllDigits(n.fraction) && n.whole != ""
  }

  /** The number that the digits and the exponent denote. */
  function NotationValue(n: Notation): Double
    requires IsDecimalNotation(n)
  {
    var mantissa := Evaluate(n.whole + n.fraction, 10);
    Finite(if n.sign == "-" then -(mantissa as int) else mantissa, 10, ExponentValue(n) - |n.fraction|)
  }

  lemma NotationStart(n: Notation)
    requires IsDecimalNotation(n)
    ensures var u := NotationText(n); u != "" && IsDigit(u[0]) && !IsHex(u)
  {
    var u := NotationText(n);
    assert u[0] == n.whole[0];
    if |n.whole| > 1 {
      assert u[1] == n.whole[1];
    } else if |u| > 1 {
      assert u[1] == (n.point + (n.fraction + ExponentText(n)))[0];
    }
  }

  lemma SignOfNotation(sign: string, u: string)
    requires sign in ["", "-"] && u != "" && IsDigit(u[0])
    ensures Strtold(sign + u) == Float(sign == "-", u)
  {
    var s := sign + u;
    assert AfterSign(s) == u && (IsNegative(s) <==> sign == "-");
    StrtoldParts(s, u);
  }

  /** Every decimal notation is read as the number it denotes: all its digits, moved by the
      exponent with its sign and by the places behind the point. */
  lemma StrtoldOfNotation(n: Notation)
    requires IsDecimalNotation(n)
    ensures Strtold(n.sign + NotationText(n)) == NotationValue(n)
  {
    NotationStart(n);
    SignOfNotation(n.sign, NotationText(n));
    FloatOfDigits(n.sign == "-", NotationText(n));
    MagnitudeOfParts(n.sign == "-", n, Ten);
    ComposeTen(n);
  }

  /** White space in front is skipped. */
  lemma {:induction false} StrtoldSkips(gap: string, s: string)
    requires forall i :: 0 <= i < |gap| ==> gap[i] == ' ' || 9 <= gap[i] as int <= 13
    ensures Strtold(gap + s) == Strtold(s)
  {
    if gap == "" {
      assert gap + s == s;
    } else {
      assert IsSpace(gap[0]) && (gap + s)[0] == gap[0] && (gap + s)[1..] == gap[1..] + s;
      StrtoldSkips(gap[1..], s);
    }
  }

  /** A plus sign means nothing. */
  lemma PlusIsNothing(u: string)
    requires u == "" || (u[0] != '+' && u[0] != '-' && !IsSpace(u[0]))
    ensures Strtold("+" + u) == Strtold(u)
  {
    assert ("+" + u)[1..] == u && !IsSpace('+');
  }

  lemma ComposeTen(n: Notation)
    requires IsDecimalNotation(n)
    ensures Compose(n.sign == "-", n.whole, n.fraction, ExponentValue(n), Ten) == NotationValue(n)
  {
  }

  // ----- JSON numbers -------------------------------------------------------------------

  /** Section 6 of RFC 8259: no leading zero, and digits behind a point. */
  predicate IsSection6(n: Notation) {
    IsDecimalNotation(n) && (n.whole[0] == '0' ==> |n.whole| == 1) && (n.point == "." ==> n.fraction != "")
  }

  lemma ExponentHasParts(e: string) returns (marker: string, sign: string, digits: string)
    requires IsExponent(e)
    ensures e == marker + (sign + digits) && AllDigits(digits)
    ensures if marker == "" then sign == "" && digits == ""
            else marker in ["e", "E"] && sign in ["", "+", "-"] && digits != ""
  {
    if e == "" {
      marker, sign, digits := "", "", "";
    } else {
      marker := if e[0] == 'e' then "e" else "E";
      sign := if |e| > 1 && e[1] == '+' then "+" else if |e| > 1 && e[1] == '-' then "-" else "";
      digits := e[1 + |sign|..];
      assert e == marker + (sign + digits);
    }
  }

  lemma PointHasParts(r: string) returns (f: string, e: string)
    requires r != "" && r[0] == '.' && IsFractionAndExponent(r)
    ensures r[1..] == f + e && IsExponent(e) && AllDigits(f) && f != ""
  {
    var k := Span(r[1..], IsDigit);
    f, e := r[1..][..k], r[1 + k..];
    assert r[1 + k..] == r[1..][k..];
  }

  lemma FractionHasParts(r: string) returns (point: string, f: string, e: string)
    requires IsFractionAndExponent(r)
    ensures r == point + (f + e) && IsExponent(e) && AllDigits(f)
    ensures (point == "." && f != "") || (point == "" && f == "")
  {
    if r != "" && r[0] == '.' {
      point := ".";
      f, e := PointHasParts(r);
      assert r == "." + r[1..];
    } else {
      point, f, e := "", "", r;
      assert r == "" + ("" + r);
    }
  }

  lemma WholeHasParts(u: string) returns (w: string, r: string)
    requires var k := Span(u, IsDigit); k > 0 && (u[0] == '0' ==> k == 1) && IsFractionAndExponent(u[k..])
    ensures u == w + r && w != "" && AllDigits(w) && (w[0] == '0' ==> |w| == 1) && IsFractionAndExponent(r)
  {
    var k := Span(u, IsDigit);
    w, r := u[..k], u[k..];
  }

  /** The parts of a JSON number. */
  lemma NumberHasParts(s: string) returns (n: Notation)
    requires IsNumber(s)
    ensures IsSection6(n) && n.sign + NotationText(n) == s
  {
    var sign := if s != "" && s[0] == '-' then "-" else "";
    var u := if s != "" && s[0] == '-' then s[1..] else s;
    assert sign + u == s;
    n := UnsignedHasParts(sign, u);
  }

  lemma UnsignedHasParts(sign: string, u: string) returns (n: Notation)
    requires sign in ["", "-"]
    requires var k := Span(u, IsDigit); k > 0 && (u[0] == '0' ==> k == 1) && IsFractionAndExponent(u[k..])
    ensures IsSection6(n) && n.sign == sign && NotationText(n) == u
  {
    var w, r := WholeHasParts(u);
    var point, f, e := FractionHasParts(r);
    var marker, expSign, digits := ExponentHasParts(e);
    n := Notation(sign, w, point, f, marker, expSign, digits);
    assert (w + f)[0] == w[0];
  }

  lemma PartsAreExponent(n: Notation)
    requires HasParts(n, ["e", "E"])
    ensures IsExponent(ExponentText(n)) && (ExponentText(n) == "" || !IsDigit(ExponentText(n)[0]))
    ensures ExponentText(n) == "" || ExponentText(n)[0] != '.'
  {
    var e := ExponentText(n);
    if n.marker != "" {
      assert IsDigit(n.expDigits[0]);
      assert e[1..] == n.expSign + n.expDigits;
      if n.expSign != "" {
        assert e[2..] == n.expDigits;
      } else {
        assert e[1..] == n.expDigits;
      }
    }
  }

  lemma PartsAreFraction(n: Notation)
    requires IsSection6(n)
    ensures var r := n.point + (n.fraction + ExponentText(n));
            IsFractionAndExponent(r) && (r == "" || !IsDigit(r[0]))
  {
    var e := ExponentText(n);
    var r := n.point + (n.fraction + e);
    PartsAreExponent(n);
    if n.point == "." {
      assert r[1..] == n.fraction + e;
      SpanExact(n.fraction, e, IsDigit);
      assert r[1 + |n.fraction|..] == e;
    } else {
      assert r == e;
    }
  }

  lemma PartsAreNumber(n: Notation)
    requires IsSection6(n)
    ensures IsNumber(n.sign + NotationText(n))
  {
    var u, s := NotationText(n), n.sign + NotationText(n);
    PartsAreFraction(n);
    SpanExact(n.whole, n.point + (n.fraction + ExponentText(n)), IsDigit);
    assert u[0] == n.whole[0];
    if n.sign == "-" {
      assert s[1..] == u;
    } else {
      assert s == u;
    }
  }

  /** JSON numbers are the texts with these parts, and no others. */
  lemma NumberExactly(s: string)
    ensures IsNumber(s) <==> exists n :: IsSection6(n) && n.sign + NotationText(n) == s
  {
    if IsNumber(s) {
      var n := NumberHasParts(s);
    }
    forall n | IsSection6(n) && n.sign + NotationText(n) == s
      ensures IsNumber(s)
    {
      PartsAreNumber(n);
    }
  }

  /** Every JSON number is read as the number its parts denote. */
  lemma NumberIsRead(s: string) returns (n: Notation)
    requires IsNumber(s)
    ensures IsSection6(n) && n.sign + NotationText(n) == s && Strtold(s) == NotationValue(n)
  {
    n := NumberHasParts(s);
    StrtoldOfNotation(n);
  }

  // ----- hexadecimal and words ----------------------------------------------------------

  lemma HexadecimalStart(prefix: string, n: Notation)
    requires prefix in ["0x", "0X"] && HasParts(n, ["p", "P"])
    ensures var u := prefix + NotationText(n);
            u[0] == '0' && IsHex(u) && u[2..] == NotationText(n)
  {
    var u := prefix + NotationText(n);
    if n.whole != "" {
      assert u[2] == n.whole[0];
    } else {
      assert n.fraction != "" && u[2] == '.' && u[3] == n.fraction[0];
    }
  }

  /** Hexadecimal notation: each digit behind the point is four binary places. */
  lemma StrtoldOfHexadecimal(prefix: string, n: Notation)
    requires prefix in ["0x", "0X"] && HasParts(n, ["p", "P"]) && n.sign in ["", "-"]
    ensures Strtold(n.sign + (prefix + NotationText(n)))
         == Finite(if n.sign == "-" then -(Evaluate(n.whole + n.fraction, 16) as int)
                   else Evaluate(n.whole + n.fraction, 16),
                   2, ExponentValue(n) - 4 * |n.fraction|)
  {
    HexadecimalStart(prefix, n);
    SignOfNotation(n.sign, prefix + NotationText(n));
    FloatOfHex(n.sign == "-", prefix + NotationText(n));
    MagnitudeOfParts(n.sign == "-", n, Sixteen);
    ComposeSixteen(n);
  }

  lemma FloatOfHex(negative: bool, u: string)
    requires u != "" && u[0] == '0' && IsHex(u)
    ensures Float(negative, u) == Magnitude(negative, u[2..], Sixteen)
  {
  }

  lemma ComposeSixteen(n: Notation)
    requires HasParts(n, ["p", "P"])
    ensures Compose(n.sign == "-", n.whole, n.fraction, ExponentValue(n), Sixteen)
         == Finite(Signed(n.sign == "-", Evaluate(n.whole + n.fraction, 16)), 2, ExponentValue(n) - 4 * |n.fraction|)
  {
  }

  lemma FloatOfWord(negative: bool, u: string)
    ensures SaysInf(u) ==> Float(negative, u) == Infinite(negative)
    ensures SaysNan(u) ==> Float(negative, u) == NotANumber
  {
  }

  lemma SignOfWord(sign: string, u: string)
    requires sign in ["", "-"] && u != "" && !IsSpace(u[0]) && u[0] != '+' && u[0] != '-'
    ensures Strtold(sign + u) == Float(sign == "-", u)
  {
    var s := sign + u;
    assert AfterSign(s) == u && (IsNegative(s) <==> sign == "-");
    StrtoldParts(s, u);
  }

  /** The word for infinity, in any case, whatever follows it. */
  lemma StrtoldOfInfinity(sign: string, u: string)
    requires sign in ["", "-"] && SaysInf(u)
    ensures Strtold(sign + u) == Infinite(sign == "-")
  {
    SignOfWord(sign, u);
    FloatOfWord(sign == "-", u);
  }

  /** And the one for not-a-number. */
  lemma StrtoldOfNan(sign: string, u: string)
    requires sign in ["", "-"] && SaysNan(u)
    ensures Strtold(sign + u) == NotANumber
  {
    SignOfWord(sign, u);
    FloatOfWord(sign == "-", u);
  }

  lemma NoNumberMagnitude(s: string)
    requires s != "" && (s[0] == 't' || s[0] == 'f' || s[0] == 'n')
    ensures Magnitude(false, s, Ten) == Finite(0, 10, 0)
  {
    SpanUnique(s, IsDigit, 0);
    JoinMagnitude(false, s, "", s, "", s, Ten);
  }

  lemma NoNumberFloat(s: string)
    requires |s| > 1 && (s[0] == 't' || s[0] == 'f' || (s[0] == 'n' && s[1] == 'u'))
    ensures Float(false, s) == Magnitude(false, s, Ten)
  {
  }

  lemma NoNumberInt(s: string)
    requires s != "" && (s[0] == 't' || s[0] == 'f' || s[0] == 'n')
    ensures IntOf(s) == 0
  {
    NoSpace(s);
    SpanUnique(s, IsDigit, 0);
    JoinStrtol(s, s, "");
  }

  /** A text that starts with no number is read as zero. */
  lemma NoNumberIsZero(s: string)
    requires |s| > 1 && (s[0] == 't' || s[0] == 'f' || (s[0] == 'n' && s[1] == 'u'))
    ensures Strtold(s) == Finite(0, 10, 0) && IntOf(s) == 0
  {
    StrtoldParts(s, s);
    NoNumberFloat(s);
    NoNumberMagnitude(s);
    NoNumberInt(s);
  }

  /** `true`, `false` and `null` are read as zero. */
  lemma LiteralsAreZero(s: string)
    requires s in ["true", "false", "null"]
    ensures Strtold(s) == Finite(0, 10, 0) && IntOf(s) == 0
  {
    NoNumberIsZero(s);
  }
}
