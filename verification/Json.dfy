/**
 JSON texts as RFC 8259 defines them.

 The grammar of sections 2 to 7 is given twice: as derivation trees with the text that
 each derives, and as a recursive-descent recogniser. `ParserIsSound` and
 `ParserIsComplete` show that the two accept the same texts with the same structure.

 `Write` takes the text that follows, so a tree in context needs no reassociation.
 */
module Json {
  import opened Common
  import opened Text

  // ----- derivation trees ---------------------------------------------------------------

  /** `ws value ws`; a whole JSON text is an element (section 2). */
  datatype Element = Element(before: string, value: Value, after: string)

  datatype Value =
    | Literal(text: string)
    | Number(text: string)
    | String(raw: string)
    | EmptyArray(gap: string)
    | Array(items: Items)
    | EmptyObject(gap: string)
    | Object(members: Members)

  datatype Items = LastItem(item: Element) | MoreItems(item: Element, others: Items)

  /** `ws string ws :`; the name is kept as written between its quotes. */
  datatype Label = Label(before: string, name: string, between: string)

  datatype Member = Member(tag: Label, element: Element)

  datatype Members = LastMember(member: Member) | MoreMembers(member: Member, others: Members)

  predicate IsWs(c: char) {
    c == ' ' || c == '\t' || c == '\n' || c == '\r'
  }

  predicate IsGap(s: string) {
    forall i :: 0 <= i < |s| ==> IsWs(s[i])
  }

  predicate IsEscape(c: char) {
    c == '"' || c == '\\' || c == '/' || c == 'b' || c == 'f' || c == 'n' || c == 'r' || c == 't'
  }

  /** Section 7: the length of the first `char` of a string body, or 0 if there is none. */
  function CharLength(s: string): (n: nat)
    ensures n <= |s|
  {
    if s == "" then 0
    else if s[0] == '\\' then
      if |s| < 2 then 0
      else if IsEscape(s[1]) then 2
      else if s[1] == 'u' && |s| >= 6 && AllHexDigits(s[2..6]) then 6
      else 0
    else if s[0] == '"' || s[0] < ' ' then 0
    else 1
  }

  /** Section 7: `*char`, the text between the quotes of a string. */
  predicate IsBody(s: string) {
    s == "" || (CharLength(s) > 0 && IsBody(s[CharLength(s)..]))
  }

  /** Section 6: `[ minus ] int [ frac ] [ exp ]`. */
  predicate IsNumber(s: string) {
    var u := if s != "" && s[0] == '-' then s[1..] else s;
    var n := Span(u, IsDigit);
    && n > 0
    && (u[0] == '0' ==> n == 1)
    && IsFractionAndExponent(u[n..])
  }

  predicate IsFractionAndExponent(s: string) {
    if s != "" && s[0] == '.' then
      var n := Span(s[1..], IsDigit);
      n > 0 && IsExponent(s[1 + n..])
    else IsExponent(s)
  }

  predicate IsExponent(s: string) {
    s == ""
    || (&& (s[0] == 'e' || s[0] == 'E')
        && var d := if |s| > 1 && (s[1] == '+' || s[1] == '-') then s[2..] else s[1..];
           d != "" && AllDigits(d))
  }

  predicate IsLiteral(s: string)
    ensures IsLiteral(s) ==> s != "" && (s[0] == 't' || s[0] == 'f' || s[0] == 'n')
  {
    s == "true" || s == "false" || s == "null"
  }

  predicate WellFormed(e: Element)
    decreases e, 1
  {
    IsGap(e.before) && IsGap(e.after) && WellFormedValue(e.value)
  }

  predicate WellFormedValue(v: Value) {
    match v
    case Literal(t) => IsLiteral(t)
    case Number(t) => IsNumber(t)
    case String(r) => IsBody(r)
    case EmptyArray(g) => IsGap(g)
    case Array(items) => WellFormedItems(items)
    case EmptyObject(g) => IsGap(g)
    case Object(members) => WellFormedMembers(members)
  }

  predicate WellFormedItems(items: Items) {
    WellFormed(items.item) && (items.MoreItems? ==> WellFormedItems(items.others))
  }

  predicate WellFormedLabel(l: Label) {
    IsGap(l.before) && IsBody(l.name) && IsGap(l.between)
  }

  predicate WellFormedMember(m: Member) {
    WellFormedLabel(m.tag) && WellFormed(m.element)
  }

  predicate WellFormedMembers(ms: Members) {
    WellFormedMember(ms.member) && (ms.MoreMembers? ==> WellFormedMembers(ms.others))
  }

  // ----- the text a tree derives --------------------------------------------------------

  function Write(e: Element, k: string): string {
    e.before + WriteValue(e.value, e.after + k)
  }

  function WriteValue(v: Value, k: string): string {
    match v
    case Literal(t) => t + k
    case Number(t) => t + k
    case String(r) => "\"" + (r + ("\"" + k))
    case EmptyArray(g) => "[" + (g + ("]" + k))
    case Array(items) => "[" + WriteItems(items, "]" + k)
    case EmptyObject(g) => "{" + (g + ("}" + k))
    case Object(members) => "{" + WriteMembers(members, "}" + k)
  }

  function WriteItems(items: Items, k: string): string {
    match items
    case LastItem(e) => Write(e, k)
    case MoreItems(e, others) => Write(e, "," + WriteItems(others, k))
  }

  function WriteLabel(l: Label, k: string): string {
    l.before + ("\"" + (l.name + ("\"" + (l.between + (":" + k)))))
  }

  function WriteMember(m: Member, k: string): string {
    WriteLabel(m.tag, Write(m.element, k))
  }

  function WriteMembers(ms: Members, k: string): string {
    match ms
    case LastMember(m) => WriteMember(m, k)
    case MoreMembers(m, others) => WriteMember(m, "," + WriteMembers(others, k))
  }

  lemma {:induction false} WriteAppends(e: Element, k: string, t: string)
    decreases e, 1
    ensures Write(e, k + t) == Write(e, k) + t
  {
    Assoc(e.after, k, t);
    WriteValueAppends(e.value, e.after + k, t);
    Assoc(e.before, WriteValue(e.value, e.after + k), t);
  }

  lemma {:induction false} WriteValueAppends(v: Value, k: string, t: string)
    decreases v, 0
    ensures WriteValue(v, k + t) == WriteValue(v, k) + t
  {
    match v
    case Literal(x) =>
      Assoc(x, k, t);
    case Number(x) =>
      Assoc(x, k, t);
    case String(r) =>
      Assoc("\"", k, t);
      Assoc(r, "\"" + k, t);
      Assoc("\"", r + ("\"" + k), t);
    case EmptyArray(g) =>
      Assoc("]", k, t);
      Assoc(g, "]" + k, t);
      Assoc("[", g + ("]" + k), t);
    case Array(items) =>
      Assoc("]", k, t);
      WriteItemsAppends(items, "]" + k, t);
      Assoc("[", WriteItems(items, "]" + k), t);
    case EmptyObject(g) =>
      Assoc("}", k, t);
      Assoc(g, "}" + k, t);
      Assoc("{", g + ("}" + k), t);
    case Object(members) =>
      Assoc("}", k, t);
      WriteMembersAppends(members, "}" + k, t);
      Assoc("{", WriteMembers(members, "}" + k), t);
  }

  lemma {:induction false} WriteItemsAppends(items: Items, k: string, t: string)
    decreases items, 2
    ensures WriteItems(items, k + t) == WriteItems(items, k) + t
  {
    match items
    case LastItem(e) =>
      WriteAppends(e, k, t);
    case MoreItems(e, others) =>
      WriteItemsAppends(others, k, t);
      Assoc(",", WriteItems(others, k), t);
      WriteAppends(e, "," + WriteItems(others, k), t);
  }

  lemma WriteLabelAppends(l: Label, k: string, t: string)
    ensures WriteLabel(l, k + t) == WriteLabel(l, k) + t
  {
    Assoc(":", k, t);
    Assoc(l.between, ":" + k, t);
    Assoc("\"", l.between + (":" + k), t);
    Assoc(l.name, "\"" + (l.between + (":" + k)), t);
    Assoc("\"", l.name + ("\"" + (l.between + (":" + k))), t);
    Assoc(l.before, "\"" + (l.name + ("\"" + (l.between + (":" + k)))), t);
  }

  lemma {:induction false} WriteMemberAppends(m: Member, k: string, t: string)
    decreases m, 2
    ensures WriteMember(m, k + t) == WriteMember(m, k) + t
  {
    WriteAppends(m.element, k, t);
    WriteLabelAppends(m.tag, Write(m.element, k), t);
  }

  lemma {:induction false} WriteMembersAppends(ms: Members, k: string, t: string)
    decreases ms, 3
    ensures WriteMembers(ms, k + t) == WriteMembers(ms, k) + t
  {
    match ms
    case LastMember(m) =>
      WriteMemberAppends(m, k, t);
    case MoreMembers(m, others) =>
      WriteMembersAppends(others, k, t);
      Assoc(",", WriteMembers(others, k), t);
      WriteMemberAppends(m, "," + WriteMembers(others, k), t);
  }

  lemma Assoc(a: string, b: string, c: string)
    ensures (a + b) + c == a + (b + c)
  {
  }

  // ----- the recogniser -----------------------------------------------------------------

  datatype Parsed<+T> = NoParse | Parsed(result: T, rest: string) {
    predicate IsFailure() {
      NoParse?
    }

    function PropagateFailure<U>(): Parsed<U>
      requires NoParse?
    {
      NoParse
    }

    function Extract(): (T, string)
      requires Parsed?
    {
      (result, rest)
    }
  }

  predicate IsNumberChar(c: char) {
    IsDigit(c) || c == '-' || c == '+' || c == '.' || c == 'e' || c == 'E'
  }

  /** Consumes the single character `c`. */
  function ParseChar(s: string, c: char): (p: Parsed<char>)
    ensures p.Parsed? ==> |p.rest| < |s|
  {
    if s != "" && s[0] == c then Parsed(c, s[1..]) else NoParse
  }

  /** The leading whitespace and what comes after it. */
  function SplitGap(s: string): (p: (string, string))
    ensures |p.1| <= |s|
  {
    var n := Span(s, IsWs);
    (s[..n], s[n..])
  }

  /** Consumes a string body and its closing quote. */
  function ParseBody(s: string): (p: Parsed<string>)
    ensures p.Parsed? ==> |p.rest| < |s|
  {
    var n := CharLength(s);
    if n > 0 then
      var (tail, rest) :- ParseBody(s[n..]);
      Parsed(s[..n] + tail, rest)
    else
      var (_, rest) :- ParseChar(s, '"');
      Parsed("", rest)
  }

  function ParseLabel(s: string): (p: Parsed<Label>)
    ensures p.Parsed? ==> |p.rest| < |s|
  {
    var (before, r1) := SplitGap(s);
    var (_, r2) :- ParseChar(r1, '"');
    var (name, r3) :- ParseBody(r2);
    var (between, r4) := SplitGap(r3);
    var (_, r5) :- ParseChar(r4, ':');
    Parsed(Label(before, name, between), r5)
  }

  /** The literal name that `s` starts with, or the empty text. */
  function LiteralAt(s: string): (w: string)
    ensures w <= s
    ensures w != "" ==> IsLiteral(w) && (s[0] == 't' || s[0] == 'f' || s[0] == 'n')
  {
    if "true" <= s then "true"
    else if "false" <= s then "false"
    else if "null" <= s then "null"
    else ""
  }

  function ParseScalar(s: string): (p: Parsed<Value>)
    ensures p.Parsed? ==> |p.rest| < |s|
  {
    var w := LiteralAt(s);
    if w != "" then Parsed(Literal(w), s[|w|..])
    else
      var n := Span(s, IsNumberChar);
      if IsNumber(s[..n]) then Parsed(Number(s[..n]), s[n..]) else NoParse
  }

  function ParseValue(s: string): (p: Parsed<Value>)
    decreases |s|, 0
    ensures p.Parsed? ==> |p.rest| < |s|
  {
    if s == "" then NoParse
    else if s[0] == '"' then
      var (raw, rest) :- ParseBody(s[1..]);
      Parsed(String(raw), rest)
    else if s[0] == '[' then ParseArray(s[1..])
    else if s[0] == '{' then ParseObject(s[1..])
    else ParseScalar(s)
  }

  /** The rest of an array after its opening bracket. */
  function ParseArray(s: string): (p: Parsed<Value>)
    decreases |s|, 4
    ensures p.Parsed? ==> |p.rest| < |s|
  {
    var (gap, inner) := SplitGap(s);
    if inner != "" && inner[0] == ']' then Parsed(EmptyArray(gap), inner[1..])
    else
      var (items, r1) :- ParseItems(s);
      var (_, r2) :- ParseChar(r1, ']');
      Parsed(Array(items), r2)
  }

  /** The rest of an object after its opening brace. */
  function ParseObject(s: string): (p: Parsed<Value>)
    decreases |s|, 4
    ensures p.Parsed? ==> |p.rest| < |s|
  {
    var (gap, inner) := SplitGap(s);
    if inner != "" && inner[0] == '}' then Parsed(EmptyObject(gap), inner[1..])
    else
      var (members, r1) :- ParseMembers(s);
      var (_, r2) :- ParseChar(r1, '}');
      Parsed(Object(members), r2)
  }

  function ParseElement(s: string): (p: Parsed<Element>)
    decreases |s|, 1
    ensures p.Parsed? ==> |p.rest| < |s|
  {
    var (before, r1) := SplitGap(s);
    var (value, r2) :- ParseValue(r1);
    var (after, r3) := SplitGap(r2);
    Parsed(Element(before, value, after), r3)
  }

  predicate Continues(s: string) {
    s != "" && s[0] == ','
  }

  function ParseItems(s: string): (p: Parsed<Items>)
    decreases |s|, 2
    ensures p.Parsed? ==> |p.rest| < |s|
  {
    var (item, r1) :- ParseElement(s);
    if Continues(r1) then
      var (others, r2) :- ParseItems(r1[1..]);
      Parsed(MoreItems(item, others), r2)
    else Parsed(LastItem(item), r1)
  }

  function ParseMember(s: string): (p: Parsed<Member>)
    decreases |s|, 2
    ensures p.Parsed? ==> |p.rest| < |s|
  {
    var (tag, r1) :- ParseLabel(s);
    var (element, r2) :- ParseElement(r1);
    Parsed(Member(tag, element), r2)
  }

  function ParseMembers(s: string): (p: Parsed<Members>)
    decreases |s|, 3
    ensures p.Parsed? ==> |p.rest| < |s|
  {
    var (member, r1) :- ParseMember(s);
    if Continues(r1) then
      var (others, r2) :- ParseMembers(r1[1..]);
      Parsed(MoreMembers(member, others), r2)
    else Parsed(LastMember(member), r1)
  }

  /** The derivation tree of a whole text, if it is a JSON text. */
  function ParseJson(s: string): Option<Element> {
    match ParseElement(s)
    case NoParse => None
    case Parsed(e, rest) => if rest == "" then Some(e) else None
  }

  predicate IsJson(s: string) {
    ParseJson(s).Some?
  }

  // ----- soundness ----------------------------------------------------------------------

  lemma {:induction false} BodyIsSound(s: string)
    ensures var p := ParseBody(s);
            p.Parsed? ==> IsBody(p.result) && s == p.result + ("\"" + p.rest)
  {
    var n := CharLength(s);
    if n > 0 && ParseBody(s[n..]).Parsed? {
      BodyIsSound(s[n..]);
      var c, p := s[..n], ParseBody(s[n..]);
      assert s == c + s[n..];
      BodyCons(c, s[n..], p.result);
      Assoc(c, p.result, "\"" + p.rest);
    } else if n == 0 && s != "" {
      assert ParseBody(s).Parsed? ==> s == "" + ("\"" + ParseBody(s).rest);
    }
  }

  lemma BodyCons(c: string, t: string, body: string)
    requires c != "" && CharLength(c + t) == |c| && IsBody(body)
    ensures IsBody(c + body)
  {
    CharLengthPrefix(c, t, body);
    assert (c + body)[|c|..] == body;
  }

  /** The first `char` is decided by its own characters. */
  lemma CharLengthPrefix(c: string, t: string, u: string)
    requires c != "" && CharLength(c + t) == |c|
    ensures CharLength(c + u) == |c|
  {
    if |c| == 6 {
      assert (c + t)[2..6] == c[2..6] == (c + u)[2..6];
    }
  }

  lemma GapIsSound(s: string)
    ensures var (gap, rest) := SplitGap(s);
            s == gap + rest && IsGap(gap) && (rest == "" || !IsWs(rest[0]))
  {
  }

  lemma CharIsSound(s: string, c: char)
    ensures var p := ParseChar(s, c); p.Parsed? ==> s == [c] + p.rest
  {
  }

  lemma LabelIsSound(s: string)
    ensures var p := ParseLabel(s);
            p.Parsed? ==> WellFormedLabel(p.result) && s == WriteLabel(p.result, p.rest)
  {
    var p := ParseLabel(s);
    if p.Parsed? {
      var (before, r1) := SplitGap(s);
      var r2 := ParseChar(r1, '"').rest;
      var name, r3 := ParseBody(r2).result, ParseBody(r2).rest;
      var (between, r4) := SplitGap(r3);
      GapIsSound(s);
      CharIsSound(r1, '"');
      BodyIsSound(r2);
      GapIsSound(r3);
      CharIsSound(r4, ':');
    }
  }

  lemma {:induction false} ValueIsSound(s: string)
    decreases |s|, 0
    ensures var p := ParseValue(s);
            p.Parsed? ==> WellFormedValue(p.result) && s == WriteValue(p.result, p.rest)
  {
    if s != "" {
      assert s == [s[0]] + s[1..];
      if s[0] == '"' {
        BodyIsSound(s[1..]);
      } else if s[0] == '[' {
        ArrayIsSound(s[1..]);
      } else if s[0] == '{' {
        ObjectIsSound(s[1..]);
      } else {
        ScalarIsSound(s);
      }
    }
  }

  lemma {:induction false} ArrayIsSound(s: string)
    decreases |s|, 4
    ensures var p := ParseArray(s);
            p.Parsed? ==> WellFormedValue(p.result) && "[" + s == WriteValue(p.result, p.rest)
  {
    var (gap, inner) := SplitGap(s);
    GapIsSound(s);
    CharIsSound(inner, ']');
    ItemsAreSound(s);
    if ParseItems(s).Parsed? {
      CharIsSound(ParseItems(s).rest, ']');
    }
  }

  lemma {:induction false} ObjectIsSound(s: string)
    decreases |s|, 4
    ensures var p := ParseObject(s);
            p.Parsed? ==> WellFormedValue(p.result) && "{" + s == WriteValue(p.result, p.rest)
  {
    var (gap, inner) := SplitGap(s);
    GapIsSound(s);
    CharIsSound(inner, '}');
    MembersAreSound(s);
    if ParseMembers(s).Parsed? {
      CharIsSound(ParseMembers(s).rest, '}');
    }
  }

  lemma ScalarIsSound(s: string)
    ensures var p := ParseScalar(s);
            p.Parsed? ==> WellFormedValue(p.result) && s == WriteValue(p.result, p.rest)
  {
    var w := LiteralAt(s);
    if w != "" {
      assert s == w + s[|w|..];
    } else {
      var n := Span(s, IsNumberChar);
      assert s == s[..n] + s[n..];
    }
  }

  lemma {:induction false} ElementIsSound(s: string)
    decreases |s|, 1
    ensures var p := ParseElement(s);
            p.Parsed? ==> WellFormed(p.result) && s == Write(p.result, p.rest)
  {
    var r1 := SplitGap(s).1;
    GapIsSound(s);
    ValueIsSound(r1);
    if ParseValue(r1).Parsed? {
      GapIsSound(ParseValue(r1).rest);
    }
  }

  lemma {:induction false} ItemsAreSound(s: string)
    decreases |s|, 2
    ensures var p := ParseItems(s);
            p.Parsed? ==> WellFormedItems(p.result) && s == WriteItems(p.result, p.rest)
  {
    ElementIsSound(s);
    var p := ParseElement(s);
    if p.Parsed? && p.rest != "" && p.rest[0] == ',' {
      var t := p.rest[1..];
      assert p.rest == "," + t;
      ItemsAreSound(t);
      var o := ParseItems(t);
      assert o.Parsed? ==> ParseItems(s) == Parsed(MoreItems(p.result, o.result), o.rest);
    }
  }

  lemma {:induction false} MemberIsSound(s: string)
    decreases |s|, 2
    ensures var p := ParseMember(s);
            p.Parsed? ==> WellFormedMember(p.result) && s == WriteMember(p.result, p.rest)
  {
    LabelIsSound(s);
    if ParseLabel(s).Parsed? {
      ElementIsSound(ParseLabel(s).rest);
    }
  }

  lemma {:induction false} MembersAreSound(s: string)
    decreases |s|, 3
    ensures MembersDerive(s, ParseMembers(s))
  {
    MemberIsSound(s);
    var p := ParseMember(s);
    if p.Parsed? {
      if Continues(p.rest) {
        MembersAreSound(p.rest[1..]);
        MoreMembersAreSound(s);
      } else {
        LastMemberIsSound(s);
      }
    }
  }

  ghost predicate MembersDerive(s: string, p: Parsed<Members>) {
    p.Parsed? ==> WellFormedMembers(p.result) && s == WriteMembers(p.result, p.rest)
  }

  lemma MoreMembersAreSound(s: string)
    requires var p := ParseMember(s);
             && p.Parsed? && Continues(p.rest)
             && WellFormedMember(p.result) && s == WriteMember(p.result, p.rest)
             && MembersDerive(p.rest[1..], ParseMembers(p.rest[1..]))
    ensures MembersDerive(s, ParseMembers(s))
  {
    var p := ParseMember(s);
    var t := p.rest[1..];
    assert p.rest == "," + t;
    var o := ParseMembers(t);
    if o.Parsed? {
      assert ParseMembers(s) == Parsed(MoreMembers(p.result, o.result), o.rest);
      JoinMembers(p.result, o.result, o.rest);
    }
  }

  lemma JoinMembers(m: Member, others: Members, k: string)
    requires WellFormedMember(m) && WellFormedMembers(others)
    ensures var ms := MoreMembers(m, others);
            WellFormedMembers(ms) && WriteMembers(ms, k) == WriteMember(m, "," + WriteMembers(others, k))
  {
  }

  lemma LastMemberIsSound(s: string)
    requires var p := ParseMember(s);
             && p.Parsed? && !Continues(p.rest)
             && WellFormedMember(p.result) && s == WriteMember(p.result, p.rest)
    ensures MembersDerive(s, ParseMembers(s))
  {
  }

  /** Every text the recogniser accepts is derived by the tree it returns. */
  lemma ParserIsSound(s: string)
    ensures ParseJson(s).Some? ==>
              WellFormed(ParseJson(s).value) && Write(ParseJson(s).value, "") == s
  {
    ElementIsSound(s);
  }

  // ----- completeness -------------------------------------------------------------------

  predicate Closes(c: char) {
    c == ',' || c == ']' || c == '}'
  }

  /** What may follow an element: nothing, or a character that closes or separates. */
  predicate EndsElement(k: string) {
    k == "" || Closes(k[0])
  }

  /** What may follow a value: also whitespace. */
  predicate EndsValue(k: string) {
    EndsElement(k) || IsWs(k[0])
  }

  lemma {:induction false} BodyIsComplete(raw: string, k: string)
    requires IsBody(raw)
    ensures ParseBody(raw + ("\"" + k)) == Parsed(raw, k)
  {
    var s := raw + ("\"" + k);
    if raw == "" {
      assert s == "\"" + k;
    } else {
      var n := CharLength(raw);
      assert raw == raw[..n] + raw[n..];
      CharLengthPrefix(raw[..n], raw[n..], raw[n..] + ("\"" + k));
      assert s == raw[..n] + (raw[n..] + ("\"" + k));
      BodyIsComplete(raw[n..], k);
    }
  }

  lemma GapIsComplete(gap: string, k: string)
    requires IsGap(gap) && (k == "" || !IsWs(k[0]))
    ensures SplitGap(gap + k) == (gap, k)
  {
    SpanExact(gap, k, IsWs);
  }

  lemma CharIsComplete(c: char, k: string)
    ensures ParseChar([c] + k, c) == Parsed(c, k)
  {
  }

  predicate AllNumberChars(s: string) {
    forall i :: 0 <= i < |s| ==> IsNumberChar(s[i])
  }

  lemma NumberCharsFrom(s: string, n: nat)
    requires n <= |s| && AllNumberChars(s[n..])
    requires forall i :: 0 <= i < n ==> IsNumberChar(s[i])
    ensures AllNumberChars(s)
  {
    forall i | n <= i < |s|
      ensures IsNumberChar(s[i])
    {
      assert s[i] == s[n..][i - n];
    }
  }

  /** Numbers consist of number characters, so the longest such span is the number. */
  lemma NumberChars(t: string)
    requires IsNumber(t)
    ensures t != "" && (t[0] == '-' || IsDigit(t[0]))
    ensures AllNumberChars(t)
  {
    var u := if t[0] == '-' then t[1..] else t;
    var n := Span(u, IsDigit);
    FractionChars(u[n..]);
    NumberCharsFrom(u, n);
    if t[0] == '-' {
      NumberCharsFrom(t, 1);
    }
  }

  lemma FractionChars(s: string)
    requires IsFractionAndExponent(s)
    ensures AllNumberChars(s)
  {
    if s != "" && s[0] == '.' {
      var n := Span(s[1..], IsDigit);
      ExponentChars(s[1 + n..]);
      assert s[1 + n..] == s[1..][n..];
      NumberCharsFrom(s[1..], n);
      NumberCharsFrom(s, 1);
    } else {
      ExponentChars(s);
    }
  }

  lemma ExponentChars(s: string)
    requires IsExponent(s)
    ensures AllNumberChars(s)
  {
    if s != "" {
      NumberCharsFrom(s, if |s| > 1 && (s[1] == '+' || s[1] == '-') then 2 else 1);
    }
  }

  lemma NumberIsComplete(t: string, k: string)
    requires IsNumber(t) && EndsValue(k)
    ensures t != "" && ParseValue(t + k) == Parsed(Number(t), k)
  {
    NumberChars(t);
    SpanExact(t, k, IsNumberChar);
    var s := t + k;
    assert s[0] == t[0];
    assert ParseValue(s) == ParseScalar(s);
  }

  /** A value starts with a character that is neither whitespace nor a closing bracket. */
  lemma ValueStart(v: Value, k: string)
    requires WellFormedValue(v)
    ensures var s := WriteValue(v, k); s != "" && !IsWs(s[0]) && !Closes(s[0])
  {
    if v.Number? {
      NumberChars(v.text);
    }
  }

  lemma {:induction false} ValueIsComplete(v: Value, k: string)
    requires WellFormedValue(v) && EndsValue(k)
    decreases v, 0
    ensures ParseValue(WriteValue(v, k)) == Parsed(v, k)
  {
    var s := WriteValue(v, k);
    match v
    case Literal(t) =>
      LiteralIsComplete(t, k);
    case Number(t) =>
      NumberIsComplete(t, k);
    case String(r) =>
      assert s[1..] == r + ("\"" + k);
      BodyIsComplete(r, k);
    case EmptyArray(g) =>
      assert s[1..] == g + ("]" + k);
      GapIsComplete(g, "]" + k);
    case EmptyObject(g) =>
      assert s[1..] == g + ("}" + k);
      GapIsComplete(g, "}" + k);
    case Array(items) =>
      assert s[1..] == WriteItems(items, "]" + k);
      ArrayIsComplete(items, k);
    case Object(members) =>
      assert s[1..] == WriteMembers(members, "}" + k);
      ObjectIsComplete(members, k);
  }

  lemma {:induction false} ArrayIsComplete(items: Items, k: string)
    requires WellFormedItems(items)
    decreases items, 4
    ensures ParseArray(WriteItems(items, "]" + k)) == Parsed(Array(items), k)
  {
    ItemsAreComplete(items, "]" + k);
    ItemsStart(items, "]" + k);
    CharIsComplete(']', k);
  }

  lemma {:induction false} ObjectIsComplete(members: Members, k: string)
    requires WellFormedMembers(members)
    decreases members, 4
    ensures ParseObject(WriteMembers(members, "}" + k)) == Parsed(Object(members), k)
  {
    MembersAreComplete(members, "}" + k);
    MembersStart(members, "}" + k);
    CharIsComplete('}', k);
  }

  lemma LiteralIsRead(t: string, k: string)
    requires IsLiteral(t)
    ensures LiteralAt(t + k) == t
  {
    assert t <= t + k;
  }

  lemma LiteralIsComplete(t: string, k: string)
    requires IsLiteral(t)
    ensures ParseValue(t + k) == Parsed(Literal(t), k)
  {
    var s := t + k;
    assert s[0] == t[0];
    LiteralIsRead(t, k);
    assert s[|t|..] == k;
  }

  lemma ItemsStart(items: Items, k: string)
    requires WellFormedItems(items)
    ensures var inner := SplitGap(WriteItems(items, k)).1;
            inner != "" && inner[0] != ']'
  {
    var e := items.item;
    var k' := if items.LastItem? then k else "," + WriteItems(items.others, k);
    ValueStart(e.value, e.after + k');
    GapIsComplete(e.before, WriteValue(e.value, e.after + k'));
  }

  lemma MembersStart(ms: Members, k: string)
    requires WellFormedMembers(ms)
    ensures var inner := SplitGap(WriteMembers(ms, k)).1;
            inner != "" && inner[0] == '"'
  {
    var m := ms.member;
    var k' := if ms.LastMember? then k else "," + WriteMembers(ms.others, k);
    var tail := m.tag.name + ("\"" + (m.tag.between + (":" + Write(m.element, k'))));
    GapIsComplete(m.tag.before, "\"" + tail);
  }

  lemma {:induction false} ElementIsComplete(e: Element, k: string)
    requires WellFormed(e) && EndsElement(k)
    decreases e, 1
    ensures ParseElement(Write(e, k)) == Parsed(e, k)
  {
    ValueStart(e.value, e.after + k);
    GapIsComplete(e.before, WriteValue(e.value, e.after + k));
    GapIsComplete(e.after, k);
    assert EndsValue(e.after + k) by {
      if e.after == "" {
        assert e.after + k == k;
      }
    }
    ValueIsComplete(e.value, e.after + k);
  }

  lemma {:induction false} ItemsAreComplete(items: Items, k: string)
    requires WellFormedItems(items) && k != "" && k[0] == ']'
    decreases items, 2
    ensures ParseItems(WriteItems(items, k)) == Parsed(items, k)
  {
    match items
    case LastItem(e) =>
      ElementIsComplete(e, k);
    case MoreItems(e, others) =>
      ItemsAreComplete(others, k);
      var k' := "," + WriteItems(others, k);
      assert k'[1..] == WriteItems(others, k);
      ElementIsComplete(e, k');
  }

  lemma LabelIsComplete(l: Label, k: string)
    requires WellFormedLabel(l)
    ensures ParseLabel(WriteLabel(l, k)) == Parsed(l, k)
  {
    var r4 := ":" + k;
    var r3 := l.between + r4;
    var r2 := l.name + ("\"" + r3);
    GapIsComplete(l.before, "\"" + r2);
    CharIsComplete('"', r2);
    BodyIsComplete(l.name, r3);
    GapIsComplete(l.between, r4);
    CharIsComplete(':', k);
  }

  lemma {:induction false} MemberIsComplete(m: Member, k: string)
    requires WellFormedMember(m) && EndsElement(k)
    decreases m, 2
    ensures ParseMember(WriteMember(m, k)) == Parsed(m, k)
  {
    ElementIsComplete(m.element, k);
    LabelIsComplete(m.tag, Write(m.element, k));
  }

  lemma {:induction false} MembersAreComplete(ms: Members, k: string)
    requires WellFormedMembers(ms) && k != "" && k[0] == '}'
    decreases ms, 3
    ensures ParseMembers(WriteMembers(ms, k)) == Parsed(ms, k)
  {
    match ms
    case LastMember(m) =>
      MemberIsComplete(m, k);
    case MoreMembers(m, others) =>
      MembersAreComplete(others, k);
      var k' := "," + WriteMembers(others, k);
      assert k'[1..] == WriteMembers(others, k);
      MemberIsComplete(m, k');
  }

  /** Every text the grammar derives is accepted, with the tree that derives it. */
  lemma ParserIsComplete(e: Element)
    requires WellFormed(e)
    ensures ParseJson(Write(e, "")) == Some(e)
  {
    ElementIsComplete(e, "");
  }

  /** The recogniser decides the grammar, and the grammar is unambiguous. */
  lemma RecogniserDecidesGrammar(s: string)
    ensures IsJson(s) <==> exists e :: WellFormed(e) && Write(e, "") == s
    ensures forall e, f :: WellFormed(e) && WellFormed(f) && Write(e, "") == s && Write(f, "") == s ==> e == f
  {
    ParserIsSound(s);
    forall e | WellFormed(e) && Write(e, "") == s
      ensures ParseJson(s) == Some(e)
    {
      ParserIsComplete(e);
    }
  }

  // ----- printed numbers ----------------------------------------------------------------

  lemma DecimalIsNumber(n: nat)
    ensures IsNumber(Decimal(n)) && IsNumber("-" + Decimal(n))
  {
    var d := Decimal(n);
    DecimalHead(n);
    SpanExact(d, "", IsDigit);
    assert d + "" == d && d[|d|..] == "";
    assert ("-" + d)[1..] == d;
  }

  lemma SignedDecimalIsNumber(i: int)
    ensures IsNumber(SignedDecimal(i))
  {
    DecimalIsNumber(if i < 0 then -i else i);
  }
}
