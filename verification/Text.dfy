/**
 C strings, spans of characters, and positional notation.

 A text is a sequence of characters, each standing for one `char` of the C program;
 a C string is a text without the terminator, and the buffer that holds it has the
 terminator appended.
 */
module Text {
  import opened Common

  const NUL := '\0'

  /** What a `char *` denotes: the characters before the terminator. */
  type CString = s: string | NUL !in s

  /** The length of the longest prefix of `s` whose characters all satisfy `p`. */
  function Span(s: string, p: char -> bool): (n: nat)
    ensures n <= |s|
    ensures forall i :: 0 <= i < n ==> p(s[i])
    ensures n < |s| ==> !p(s[n])
  {
    if s == "" || !p(s[0]) then 0 else 1 + Span(s[1..], p)
  }

  lemma SpanUnique(s: string, p: char -> bool, n: nat)
    requires n <= |s|
    requires forall i :: 0 <= i < n ==> p(s[i])
    requires n < |s| ==> !p(s[n])
    ensures Span(s, p) == n
  {
  }

  /** A span is not changed by text that follows a character which ends it. */
  lemma SpanStops(a: string, b: string, p: char -> bool)
    requires b == "" || !p(b[0])
    ensures Span(a + b, p) == Span(a, p)
  {
    SpanUnique(a + b, p, Span(a, p));
  }

  /** A text of `p` characters in front of one that is not is exactly the span. */
  lemma SpanExact(a: string, b: string, p: char -> bool)
    requires forall i :: 0 <= i < |a| ==> p(a[i])
    requires b == "" || !p(b[0])
    ensures Span(a + b, p) == |a|
    ensures (a + b)[..|a|] == a && (a + b)[|a|..] == b
  {
    SpanStops(a, b, p);
  }

  predicate NotNul(c: char) {
    c != NUL
  }

  /** The C string at the start of a buffer; the buffer's end also ends it. */
  function UpToNul(buffer: string): (s: CString)
    ensures s <= buffer
  {
    buffer[..Span(buffer, NotNul)]
  }

  lemma UpToNulExact(s: CString, k: string)
    requires k == "" || k[0] == NUL
    ensures UpToNul(s + k) == s
  {
    SpanExact(s, k, NotNul);
  }

  lemma UpToNulAt(buffer: string, s: CString)
    requires |s| < |buffer| && buffer[..|s|] == s && buffer[|s|] == NUL
    ensures UpToNul(buffer) == s
  {
    assert buffer == s + buffer[|s|..];
    UpToNulExact(s, buffer[|s|..]);
  }

  /** The character at `i` of a terminated buffer. */
  function CharAt(s: string, i: nat): char {
    if i < |s| then s[i] else NUL
  }

  /** `strncmp(a, b, n) == 0`: compares up to `n` characters and stops at a terminator. */
  predicate SameFirst(a: string, b: string, n: nat)
    decreases n
  {
    n == 0
    || (CharAt(a, 0) == CharAt(b, 0) && (CharAt(a, 0) == NUL || SameFirst(a[1..], b[1..], n - 1)))
  }

  /** Comparing over the length of one string asks whether it is a prefix of the other. */
  lemma {:induction false} SameFirstIsPrefix(word: CString, s: string)
    decreases |word|
    ensures SameFirst(s, word, |word|) <==> word <= s
  {
    if word != "" && s != "" {
      assert word[0] in word;
      SameFirstIsPrefix(word[1..], s[1..]);
      assert word == [word[0]] + word[1..] && s == [s[0]] + s[1..];
      assert word <= s <==> word[0] == s[0] && word[1..] <= s[1..];
    } else if word != "" {
      assert word[0] in word;
    }
  }

  predicate IsDigit(c: char) {
    '0' <= c <= '9'
  }

  predicate IsHexDigit(c: char) {
    IsDigit(c) || 'a' <= c <= 'f' || 'A' <= c <= 'F'
  }

  function DigitValue(c: char): (d: nat)
    requires IsHexDigit(c)
    ensures d < 16 && (IsDigit(c) ==> d < 10)
  {
    if IsDigit(c) then c as int - '0' as int
    else if 'a' <= c <= 'f' then c as int - 'a' as int + 10
    else c as int - 'A' as int + 10
  }

  function DigitChar(d: nat): (c: char)
    requires d < 10
    ensures IsDigit(c) && DigitValue(c) == d
  {
    (d + '0' as int) as char
  }

  predicate AllDigits(s: string) {
    forall i :: 0 <= i < |s| ==> IsDigit(s[i])
  }

  predicate AllHexDigits(s: string) {
    forall i :: 0 <= i < |s| ==> IsHexDigit(s[i])
  }

  type NumberBase = b: nat | b == 10 || b == 16 witness 10

  /** A product of a number and a base, which is linear in the number. */
  function Times(x: nat, base: NumberBase): nat {
    if base == 10 then 10 * x else 16 * x
  }

  function Pow(base: NumberBase, e: nat): (r: nat)
    ensures r > 0
  {
    if e == 0 then 1 else Times(Pow(base, e - 1), base)
  }

  /** The number that the digits of `s` denote in the given base. */
  function Evaluate(s: string, base: NumberBase): nat
    requires AllHexDigits(s)
  {
    if s == "" then 0
    else Times(Evaluate(s[..|s| - 1], base), base) + DigitValue(s[|s| - 1])
  }

  /** The law of decimal notation: a digit behind a number is ten times the number and the
      digit, which is its distance from '0'. */
  lemma EvaluateDecimal(s: string, c: char)
    requires AllHexDigits(s) && '0' <= c <= '9'
    ensures AllHexDigits(s + [c]) && Evaluate("", 10) == 0
    ensures Evaluate(s + [c], 10) == 10 * Evaluate(s, 10) + (c as int - '0' as int)
  {
    assert (s + [c])[..|s|] == s;
  }

  /** And of hexadecimal notation, in either case. */
  lemma EvaluateHexadecimal(s: string, c: char)
    requires AllHexDigits(s) && ('0' <= c <= '9' || 'a' <= c <= 'f' || 'A' <= c <= 'F')
    ensures AllHexDigits(s + [c]) && Evaluate("", 16) == 0
    ensures Evaluate(s + [c], 16) - 16 * Evaluate(s, 16)
         == if c <= '9' then c as int - '0' as int
            else if c >= 'a' then 10 + (c as int - 'a' as int) else 10 + (c as int - 'A' as int)
  {
    assert (s + [c])[..|s|] == s;
  }

  lemma Regroup(x: nat, y: nat, z: nat, base: NumberBase)
    ensures Times(x * y + z, base) == x * Times(y, base) + Times(z, base)
  {
    assert 10 * (x * y) == x * (10 * y) && 16 * (x * y) == x * (16 * y);
  }

  lemma {:induction false} EvaluateConcat(a: string, b: string, base: NumberBase)
    requires AllHexDigits(a) && AllHexDigits(b)
    ensures AllHexDigits(a + b)
    ensures Evaluate(a + b, base) == Evaluate(a, base) * Pow(base, |b|) + Evaluate(b, base)
  {
    if b == "" {
      assert a + b == a;
    } else {
      var c := b[..|b| - 1];
      EvaluateConcat(a, c, base);
      assert (a + b)[..|a + b| - 1] == a + c;
      Regroup(Evaluate(a, base), Pow(base, |c|), Evaluate(c, base), base);
    }
  }

  /** `%lu` for a value of any size: decimal digits without leading zeros. */
  function Decimal(n: nat): (s: string)
    ensures |s| > 0 && AllDigits(s)
  {
    if n < 10 then [DigitChar(n)] else Decimal(n / 10) + [DigitChar(n % 10)]
  }

  lemma {:induction false} DecimalValue(n: nat)
    ensures Evaluate(Decimal(n), 10) == n
  {
    if n >= 10 {
      DecimalValue(n / 10);
      var s := Decimal(n);
      assert s[..|s| - 1] == Decimal(n / 10);
    } else {
      assert Decimal(n)[..0] == "";
    }
  }

  /** No leading zero: a decimal starts with `0` only when it is `0`. */
  lemma {:induction false} DecimalHead(n: nat)
    ensures Decimal(n)[0] == '0' <==> n == 0
    ensures n == 0 ==> Decimal(n) == "0"
  {
    if n >= 10 {
      DecimalHead(n / 10);
    }
  }

  /** `%d`: an optional minus sign and the digits of the magnitude. */
  function SignedDecimal(i: int): string {
    if i < 0 then "-" + Decimal(-i) else Decimal(i)
  }

  /** Reads what `Decimal` prints and nothing else. */
  function ReadDecimal(s: string): (r: Option<nat>)
    ensures r.Some? ==> Decimal(r.value) == s
  {
    if s != "" && AllDigits(s) && Decimal(Evaluate(s, 10)) == s then Some(Evaluate(s, 10)) else None
  }

  lemma ReadDecimalInverse(n: nat)
    ensures ReadDecimal(Decimal(n)) == Some(n)
  {
    DecimalValue(n);
  }

  function ReadSignedDecimal(s: string): (r: Option<int>)
    ensures r.Some? ==> SignedDecimal(r.value) == s
  {
    if s != "" && s[0] == '-' then
      var n :- ReadDecimal(s[1..]);
      if n == 0 then None else Some(-(n as int))
    else
      var n :- ReadDecimal(s);
      Some(n as int)
  }

  lemma ReadSignedDecimalInverse(i: int)
    ensures ReadSignedDecimal(SignedDecimal(i)) == Some(i)
  {
    if i < 0 {
      ReadDecimalInverse(-i);
      var d := Decimal(-i);
      assert ("-" + d)[1..] == d;
    } else {
      ReadDecimalInverse(i);
      assert IsDigit(Decimal(i)[0]);
    }
  }

}
