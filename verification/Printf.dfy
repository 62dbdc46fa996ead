/** The conversions of `printf` (section 7.21.6.1 of ISO/IEC 9899:2011) that the program uses. */
module Printf {
  import opened Text

  datatype Argument = Chars(s: string) | Signed(i: int) | Unsigned(n: nat)

  /** `%s`, `%d` and `%lu` take one argument each, in order; a conversion without its argument
      is undefined and ends the text. */
  function Format(f: string, args: seq<Argument>): string {
    if f == "" then ""
    else if f[0] != '%' then [f[0]] + Format(f[1..], args)
    else if |args| == 0 then ""
    else
      match args[0]
      case Chars(s) => if "%s" <= f then s + Format(f[2..], args[1..]) else ""
      case Signed(i) => if "%d" <= f then SignedDecimal(i) + Format(f[2..], args[1..]) else ""
      case Unsigned(n) => if "%lu" <= f then Decimal(n) + Format(f[3..], args[1..]) else ""
  }

  /** Text without a percent sign is copied. */
  lemma {:induction false} FormatText(a: string, f: string, args: seq<Argument>)
    requires '%' !in a
    ensures Format(a + f, args) == a + Format(f, args)
  {
    if a == "" {
      assert a + f == f && a + Format(f, args) == Format(f, args);
    } else {
      assert a[0] in a;
      assert (a + f)[0] == a[0] && (a + f)[1..] == a[1..] + f;
      FormatText(a[1..], f, args);
      assert [a[0]] + (a[1..] + Format(f, args)) == a + Format(f, args);
    }
  }

  lemma FormatChars(s: string, f: string, args: seq<Argument>)
    ensures Format("%s" + f, [Chars(s)] + args) == s + Format(f, args)
  {
    var g := "%s" + f;
    assert "%s" <= g && g[0] == '%' && g[2..] == f && ([Chars(s)] + args)[1..] == args;
  }

  lemma FormatSigned(i: int, f: string, args: seq<Argument>)
    ensures Format("%d" + f, [Signed(i)] + args) == SignedDecimal(i) + Format(f, args)
  {
    var g := "%d" + f;
    assert "%d" <= g && g[0] == '%' && g[2..] == f && ([Signed(i)] + args)[1..] == args;
  }

  lemma FormatUnsigned(n: nat, f: string, args: seq<Argument>)
    ensures Format("%lu" + f, [Unsigned(n)] + args) == Decimal(n) + Format(f, args)
  {
    var g := "%lu" + f;
    assert "%lu" <= g && g[0] == '%' && g[3..] == f && ([Unsigned(n)] + args)[1..] == args;
  }

  /** A text that ends the schema. */
  lemma FormatEnd(a: string)
    requires '%' !in a
    ensures Format(a, []) == a
  {
    FormatText(a, "", []);
    assert a + "" == a;
  }
}
