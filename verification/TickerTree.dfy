/**
 The extractor on JSON texts: tokens in the text, tickers, and the round trip.

 `AgreesWithGrammar` is the one assumption about the tokeniser.
 */
module TickerTree {
  import opened Common
  import opened Text
  import opened Json
  import opened Message
  import opened Numbers
  import opened Tokens
  import opened Ticker

  // ----- where the tokens lie -----------------------------------------------------------

  /** If the text from `at` starts with `a`, the rest starts behind it. */
  lemma Shift(json: string, at: nat, a: string, b: string)
    requires at <= |json| && json[at..] == a + b
    ensures at + |a| <= |json| && json[at..at + |a|] == a && json[at + |a|..] == b
  {
    assert json[at..][..|a|] == a;
    assert json[at..][|a|..] == b;
  }

  lemma LabelWidth(l: Label)
    ensures |WriteLabel(l, "")| == |l.before| + |l.name| + |l.between| + 3
  {
  }

  /** Where the name lies, and where the text behind the colon starts. */
  lemma LabelPlaced(json: string, l: Label, at: nat, k: string)
    requires at <= |json| && json[at..] == WriteLabel(l, k)
    ensures var name := at + |l.before| + 1;
            name + |l.name| <= |json| && json[name..name + |l.name|] == l.name
    ensures at + |WriteLabel(l, "")| <= |json| && json[at + |WriteLabel(l, "")|..] == k
  {
    var r3 := l.between + (":" + k);
    NamePlaced(json, l, at, r3);
    LabelWidth(l);
    var behind := at + |l.before| + 1 + |l.name| + 1;
    Shift(json, behind, l.between, ":" + k);
    Shift(json, behind + |l.between|, ":", k);
  }

  lemma NamePlaced(json: string, l: Label, at: nat, r3: string)
    requires at <= |json| && json[at..] == l.before + ("\"" + (l.name + ("\"" + r3)))
    ensures var name := at + |l.before| + 1;
            && name + |l.name| + 1 <= |json| && json[name..name + |l.name|] == l.name
            && json[name + |l.name| + 1..] == r3
  {
    var r2 := l.name + ("\"" + r3);
    Shift(json, at, l.before, "\"" + r2);
    Shift(json, at + |l.before|, "\"", r2);
    Shift(json, at + |l.before| + 1, l.name, "\"" + r3);
    Shift(json, at + |l.before| + 1 + |l.name|, "\"", r3);
  }

  ghost predicate AllInside(json: string, toks: seq<Token>) {
    forall i :: 0 <= i < |toks| ==> Inside(json, toks[i])
  }

  ghost predicate NoKeys(json: string, toks: seq<Token>)
    requires AllInside(json, toks)
  {
    forall i :: 0 <= i < |toks| ==> !IsKey(json, toks[i])
  }

  /** No string in the value, at any depth, is one of the nine keys. */
  predicate Quiet(v: Value) {
    match v
    case String(r) => !IsKeyName(r)
    case Array(items) => QuietItems(items)
    case Object(ms) => QuietMembers(ms)
    case _ => true
  }

  predicate QuietItems(items: Items) {
    Quiet(items.item.value) && (items.MoreItems? ==> QuietItems(items.others))
  }

  predicate QuietMember(m: Member) {
    !IsKeyName(m.tag.name) && Quiet(m.element.value)
  }

  predicate QuietMembers(ms: Members) {
    QuietMember(ms.member) && (ms.MoreMembers? ==> QuietMembers(ms.others))
  }

  /** The tokens lie in the text, and one of them is a key exactly when `quiet` is false. */
  ghost predicate Fits(json: string, toks: seq<Token>, quiet: bool) {
    AllInside(json, toks) && (NoKeys(json, toks) <==> quiet)
  }

  lemma FitsOne(json: string, t: Token)
    requires Inside(json, t)
    ensures Fits(json, [t], !IsKey(json, t))
  {
    assert [t][0] == t;
  }

  lemma FitsConcat(json: string, a: seq<Token>, b: seq<Token>, qa: bool, qb: bool)
    requires Fits(json, a, qa) && Fits(json, b, qb)
    ensures Fits(json, a + b, qa && qb)
  {
    var c := a + b;
    assert forall i :: 0 <= i < |a| ==> c[i] == a[i];
    assert forall i :: 0 <= i < |b| ==> c[|a| + i] == b[i];
  }

  lemma {:induction false} ElementFits(json: string, e: Element, at: nat, k: string)
    requires at <= |json| && json[at..] == Write(e, k)
    decreases e, 1
    ensures Fits(json, ElementTokens(e, at), Quiet(e.value))
  {
    Shift(json, at, e.before, WriteValue(e.value, e.after + k));
    ValueFits(json, e.value, at + |e.before|, e.after + k);
  }

  lemma ValueWidth(json: string, v: Value, at: nat, k: string)
    requires at <= |json| && json[at..] == WriteValue(v, k)
    ensures at + |WriteValue(v, "")| <= |json|
  {
    WriteValueAppends(v, "", k);
    assert "" + k == k;
    Shift(json, at, WriteValue(v, ""), k);
  }

  lemma {:induction false} ValueFits(json: string, v: Value, at: nat, k: string)
    requires at <= |json| && json[at..] == WriteValue(v, k)
    decreases v, 0
    ensures Fits(json, ValueTokens(v, at), Quiet(v))
  {
    ValueWidth(json, v, at, k);
    var first := ValueTokens(v, at)[0];
    match v
    case Literal(_) =>
      FitsOne(json, first);
    case Number(_) =>
      FitsOne(json, first);
    case String(r) =>
      Shift(json, at, "\"", r + ("\"" + k));
      Shift(json, at + 1, r, "\"" + k);
      FitsOne(json, first);
    case EmptyArray(_) =>
      FitsOne(json, first);
    case EmptyObject(_) =>
      FitsOne(json, first);
    case Array(items) =>
      Shift(json, at, "[", WriteItems(items, "]" + k));
      FitsOne(json, first);
      ItemsFit(json, items, at + 1, "]" + k);
      FitsConcat(json, [first], ItemsTokens(items, at + 1), true, QuietItems(items));
    case Object(ms) =>
      Shift(json, at, "{", WriteMembers(ms, "}" + k));
      FitsOne(json, first);
      MembersFit(json, ms, at + 1, "}" + k);
      FitsConcat(json, [first], MembersTokens(ms, at + 1), true, QuietMembers(ms));
  }

  /** Text in front of a comma, and the text behind it. */
  lemma BehindComma(json: string, at: nat, a: string, rest: string)
    requires at <= |json| && json[at..] == a + ("," + rest)
    ensures at + |a| + 1 <= |json| && json[at + |a| + 1..] == rest
  {
    Shift(json, at, a, "," + rest);
    Shift(json, at + |a|, ",", rest);
  }

  lemma WriteEnds(e: Element, k: string)
    ensures Write(e, k) == Write(e, "") + k
  {
    WriteAppends(e, "", k);
    assert "" + k == k;
  }

  lemma WriteMemberEnds(m: Member, k: string)
    ensures WriteMember(m, k) == WriteMember(m, "") + k
  {
    WriteMemberAppends(m, "", k);
    assert "" + k == k;
  }

  /** The text of the items after the first one. */
  lemma OtherItemsPlaced(json: string, e: Element, others: Items, at: nat, k: string)
    requires at <= |json| && json[at..] == WriteItems(MoreItems(e, others), k)
    ensures var next := at + |Write(e, "")| + 1;
            next <= |json| && json[next..] == WriteItems(others, k)
    ensures json[at..] == Write(e, "," + WriteItems(others, k))
  {
    WriteEnds(e, "," + WriteItems(others, k));
    BehindComma(json, at, Write(e, ""), WriteItems(others, k));
  }

  lemma {:induction false} ItemsFit(json: string, items: Items, at: nat, k: string)
    requires at <= |json| && json[at..] == WriteItems(items, k)
    decreases items, 2
    ensures Fits(json, ItemsTokens(items, at), QuietItems(items))
  {
    match items
    case LastItem(e) =>
      ElementFits(json, e, at, k);
    case MoreItems(e, others) =>
      var next := at + |Write(e, "")| + 1;
      OtherItemsPlaced(json, e, others, at, k);
      ElementFits(json, e, at, "," + WriteItems(others, k));
      ItemsFit(json, others, next, k);
      FitsConcat(json, ElementTokens(e, at), ItemsTokens(others, next), Quiet(e.value), QuietItems(others));
  }

  lemma {:induction false} MemberFits(json: string, m: Member, at: nat, k: string)
    requires at <= |json| && json[at..] == WriteMember(m, k)
    decreases m, 2
    ensures Fits(json, MemberTokens(m, at), QuietMember(m))
  {
    var start := at + |WriteLabel(m.tag, "")|;
    LabelPlaced(json, m.tag, at, Write(m.element, k));
    var name := MemberTokens(m, at)[0];
    FitsOne(json, name);
    ElementFits(json, m.element, start, k);
    FitsConcat(json, [name], ElementTokens(m.element, start), !IsKeyName(m.tag.name), Quiet(m.element.value));
  }

  /** The text of the members after the first one. */
  lemma OthersPlaced(json: string, m: Member, others: Members, at: nat, k: string)
    requires at <= |json| && json[at..] == WriteMembers(MoreMembers(m, others), k)
    ensures var next := at + |WriteMember(m, "")| + 1;
            next <= |json| && json[next..] == WriteMembers(others, k)
    ensures json[at..] == WriteMember(m, "," + WriteMembers(others, k))
  {
    WriteMemberEnds(m, "," + WriteMembers(others, k));
    BehindComma(json, at, WriteMember(m, ""), WriteMembers(others, k));
  }

  lemma {:induction false} MembersFit(json: string, ms: Members, at: nat, k: string)
    requires at <= |json| && json[at..] == WriteMembers(ms, k)
    decreases ms, 3
    ensures Fits(json, MembersTokens(ms, at), QuietMembers(ms))
  {
    match ms
    case LastMember(m) =>
      MemberFits(json, m, at, k);
    case MoreMembers(m, others) =>
      var next := at + |WriteMember(m, "")| + 1;
      OthersPlaced(json, m, others, at, k);
      MemberFits(json, m, at, "," + WriteMembers(others, k));
      MembersFit(json, others, next, k);
      FitsConcat(json, MemberTokens(m, at), MembersTokens(others, next), QuietMember(m), QuietMembers(others));
  }

  /** The tokens of a JSON object: one for the object, then the name of its first member. */
  lemma ObjectTokens(e: Element)
    requires e.value.Object?
    ensures var toks := ElementTokens(e, 0);
            |toks| > 2 && toks[0].kind.ObjectToken? && toks[1].kind.StringToken?
  {
    var ms := e.value.members;
    var at := |e.before| + 1;
    ElementTokensNotEmpty(ms.member.element, at + |WriteLabel(ms.member.tag, "")|);
    assert MemberTokens(ms.member, at) <= MembersTokens(ms, at);
  }

  lemma ElementTokensNotEmpty(e: Element, at: nat)
    ensures ElementTokens(e, at) != []
  {
  }

  /** On JSON objects the parse reads outside its tokens exactly when the object is empty or
      the last token of the text is a string that is one of the nine keys. */
  lemma OverrunExactly(jsmn: Tokenizer, e: Element, junk: Ticker)
    requires AgreesWithGrammar(jsmn) && WellFormed(e) && IsObject(e.value)
    ensures var json, toks := Write(e, ""), ElementTokens(e, 0);
            && toks != [] && AllInside(json, toks)
            && (ParseTicker(jsmn, json, junk).Overrun? <==> e.value.EmptyObject? || IsKey(json, toks[|toks| - 1]))
            && (ParseTicker(jsmn, json, junk).Overrun? || ParseTicker(jsmn, json, junk).Extracted?)
  {
    var json, toks := Write(e, ""), ElementTokens(e, 0);
    assert json[0..] == json;
    ElementFits(json, e, 0, "");
    if e.value.Object? {
      ObjectTokens(e);
      assert forall i :: 0 <= i < |toks| - 2 ==> toks[2..][i] == toks[i + 2];
      ScannableExactly(json, toks[2..]);
    }
  }

  // ----- tickers ------------------------------------------------------------------------

  predicate IsPrimitive(v: Value) {
    v.Literal? || v.Number?
  }

  /** Every member's value is quiet; the members' own names may be keys. */
  predicate Tame(ms: Members) {
    Quiet(ms.member.element.value) && (ms.MoreMembers? ==> Tame(ms.others))
  }

  /** A name and the text of its value. */
  type Binding = (string, string)

  /** A value that is neither a number nor a literal binds like the empty text. */
  function ValueText(v: Value): string {
    if IsPrimitive(v) then v.text else ""
  }

  function BindingOf(m: Member): Binding {
    (m.tag.name, ValueText(m.element.value))
  }

  function Bindings(ms: Members): (bs: seq<Binding>)
    ensures bs != []
  {
    [BindingOf(ms.member)] + if ms.LastMember? then [] else Bindings(ms.others)
  }

  function BindField(b: Binding, f: Field, value: Double): Double {
    if b.0 == Name(f) then Strtold(b.1) else value
  }

  /** The ticker after one member. */
  function Bind(t: Ticker, b: Binding): Ticker {
    Ticker(t.pair,
           BindField(b, HIGH, t.high),
           BindField(b, LOW, t.low),
           BindField(b, AVG, t.avg),
           BindField(b, VOL, t.vol),
           BindField(b, VOL_CUR, t.volCur),
           BindField(b, LAST, t.last),
           BindField(b, BUY, t.buy),
           BindField(b, SELL, t.sell),
           if b.0 == UPDATED then IntOf(b.1) else t.updated)
  }

  function BindAll(bs: seq<Binding>, t: Ticker): Ticker {
    if bs == [] then t else BindAll(bs[1..], Bind(t, bs[0]))
  }

  /** The token is the primitive with this text, or no primitive, and the text is empty. */
  predicate Stands(json: string, t: Token, text: string)
    requires Inside(json, t)
  {
    if t.kind.Primitive? then IsPrimitiveIn(json, t) && Slice(json, t) == text else text == ""
  }

  /** The readers make of the token what the conversions make of the text. */
  lemma StandsReads(json: string, t: Token, text: string)
    requires Inside(json, t) && Stands(json, t, text)
    ensures GetJsonDouble(json, t) == Strtold(text) && GetJsonInt(json, t) == IntOf(text)
  {
    if t.kind.Primitive? {
      ReadersUseTheSlice(json, t);
    } else {
      EmptyReads();
    }
  }

  lemma EmptyReads()
    ensures Strtold("") == ZERO && IntOf("") == 0
  {
    var s := "";
    assert AfterSpace(s) == s && AfterSign(s) == s;
    assert Whole(s, Ten) == "" && Fraction(AfterWhole(s, Ten), Ten) == "";
    assert Digits(s) == "";
  }

  /** A member's tokens: its name, a token that reads as its value, and nothing that is a key. */
  lemma MemberPlaced(json: string, m: Member, at: nat, k: string)
    requires at <= |json| && json[at..] == WriteMember(m, k)
    requires WellFormedMember(m) && Quiet(m.element.value) && EndsElement(k)
    ensures IsMember(json, MemberTokens(m, at), BindingOf(m))
  {
    LabelPlaced(json, m.tag, at, Write(m.element, k));
    var start, name := at + |WriteLabel(m.tag, "")|, at + |m.tag.before| + 1;
    ElementPlaced(json, m.element, start, k);
    var token := Token(StringToken, name, name + |m.tag.name|);
    JoinMember(json, token, ElementTokens(m.element, start), m.tag.name, ValueText(m.element.value));
  }

  lemma ElementPlaced(json: string, e: Element, at: nat, k: string)
    requires at <= |json| && json[at..] == Write(e, k)
    requires WellFormed(e) && Quiet(e.value) && EndsElement(k)
    ensures IsValue(json, ElementTokens(e, at), ValueText(e.value))
  {
    ElementFits(json, e, at, k);
    ElementStands(json, e, at, k);
  }

  ghost predicate IsValue(json: string, toks: seq<Token>, text: string) {
    toks != [] && Fits(json, toks, true) && Stands(json, toks[0], text)
  }

  lemma JoinMember(json: string, name: Token, rest: seq<Token>, key: string, text: string)
    requires Inside(json, name) && name.kind.StringToken? && Slice(json, name) == key
    requires IsValue(json, rest, text)
    ensures IsMember(json, [name] + rest, (key, text))
  {
    assert ([name] + rest)[1..] == rest;
  }

  ghost predicate IsMember(json: string, toks: seq<Token>, b: Binding) {
    && toks != [] && Inside(json, toks[0]) && toks[0].kind.StringToken? && Slice(json, toks[0]) == b.0
    && IsValue(json, toks[1..], b.1)
  }

  lemma ElementStands(json: string, e: Element, at: nat, k: string)
    requires at <= |json| && json[at..] == Write(e, k)
    requires WellFormed(e) && EndsElement(k) && AllInside(json, ElementTokens(e, at))
    ensures ElementTokens(e, at) != []
    ensures Stands(json, ElementTokens(e, at)[0], ValueText(e.value))
  {
    if IsPrimitive(e.value) {
      PrimitivePlaced(json, e, at, k);
    }
  }

  lemma PrimitivePlaced(json: string, e: Element, at: nat, k: string)
    requires at <= |json| && json[at..] == Write(e, k)
    requires WellFormed(e) && IsPrimitive(e.value) && EndsElement(k)
    ensures var toks := ElementTokens(e, at);
            |toks| == 1 && IsPrimitiveIn(json, toks[0]) && Slice(json, toks[0]) == e.value.text
  {
    PrimitiveStart(e.value);
    TailEnds(e, k);
    PrimitiveText(e, k);
    PrimitiveTokens(e, at);
    PrimitiveAt(json, at, e.before, e.value.text, e.after + k);
  }

  lemma PrimitiveText(e: Element, k: string)
    requires IsPrimitive(e.value)
    ensures Write(e, k) == e.before + (e.value.text + (e.after + k))
  {
  }

  lemma PrimitiveTokens(e: Element, at: nat)
    requires IsPrimitive(e.value)
    ensures ElementTokens(e, at) == [Token(Primitive, at + |e.before|, at + |e.before| + |e.value.text|)]
  {
  }

  lemma PrimitiveAt(json: string, at: nat, before: string, text: string, tail: string)
    requires at <= |json| && json[at..] == before + (text + tail)
    requires text != "" && !IsSpace(text[0]) && Ends(tail)
    ensures var t := Token(Primitive, at + |before|, at + |before| + |text|);
            IsPrimitiveIn(json, t) && Slice(json, t) == text
  {
    Shift(json, at, before, text + tail);
    TextPlaced(json, text, at + |before|, tail);
  }

  lemma TextPlaced(json: string, text: string, start: nat, tail: string)
    requires start <= |json| && json[start..] == text + tail
    requires text != "" && !IsSpace(text[0]) && Ends(tail)
    ensures var t := Token(Primitive, start, start + |text|); IsPrimitiveIn(json, t) && Slice(json, t) == text
  {
    Shift(json, start, text, tail);
    assert json[start] == json[start..][0] == text[0];
  }

  lemma TailEnds(e: Element, k: string)
    requires WellFormed(e) && EndsElement(k)
    ensures Ends(e.after + k)
  {
    if e.after == "" {
      assert e.after + k == k;
    }
  }

  lemma PrimitiveStart(v: Value)
    requires WellFormedValue(v) && IsPrimitive(v)
    ensures v.text != "" && !IsSpace(v.text[0])
  {
    if v.Number? {
      NumberChars(v.text);
    }
  }

  /** Tokens that are no keys have no effect. */
  lemma {:induction false} SkipQuiet(json: string, toks: seq<Token>, n: nat, t: Ticker)
    requires n <= |toks| && Fits(json, toks[..n], true) && Scannable(json, toks[n..])
    decreases n
    ensures Scannable(json, toks) && Scan(json, toks, t) == Scan(json, toks[n..], t)
  {
    if n > 0 {
      assert toks[1..][n - 1..] == toks[n..] && toks[1..][..n - 1] == toks[..n][1..];
      assert toks[0] == toks[..n][0];
      SkipQuiet(json, toks[1..], n - 1, t);
      ScannableStep(json, toks);
      SecondInside(json, toks);
      assert Turn(json, toks, t) == t;
    } else {
      assert toks[0..] == toks;
    }
  }

  lemma SecondInside(json: string, toks: seq<Token>)
    requires toks != [] && Inside(json, toks[0]) && !IsKey(json, toks[0]) && Scannable(json, toks[1..])
    ensures TurnInside(json, toks)
  {
    assert |toks| > 1 ==> toks[1] == toks[1..][0];
  }

  /** The turns at a member's tokens bind the member. */
  lemma MemberTurns(json: string, member: seq<Token>, rest: seq<Token>, t: Ticker, b: Binding)
    requires IsMember(json, member, b) && Scannable(json, rest)
    ensures Scannable(json, member + rest)
    ensures Scan(json, member + rest, t) == Scan(json, rest, Bind(t, b))
  {
    var toks := member + rest;
    var n := |member| - 1;
    assert toks[1..][..n] == member[1..] && toks[1..][n..] == rest;
    SkipQuiet(json, toks[1..], n, Bind(t, b));
    ScannableStep(json, toks);
    assert toks[0] == member[0] && toks[1] == member[1];
    NameTurn(json, toks, t, b);
  }

  lemma NameTurn(json: string, toks: seq<Token>, t: Ticker, b: Binding)
    requires |toks| > 1 && Inside(json, toks[0]) && Inside(json, toks[1])
    requires toks[0].kind.StringToken? && Slice(json, toks[0]) == b.0 && Stands(json, toks[1], b.1)
    ensures TurnInside(json, toks) && Turn(json, toks, t) == Bind(t, b)
  {
    StandsReads(json, toks[1], b.1);
  }

  /** Scanning the tokens binds the bindings onto `t`. */
  predicate ScansTo(json: string, toks: seq<Token>, bs: seq<Binding>, t: Ticker) {
    Scannable(json, toks) && Scan(json, toks, t) == BindAll(bs, t)
  }

  lemma MemberScan(json: string, member: seq<Token>, rest: seq<Token>, b: Binding, bs: seq<Binding>, t: Ticker)
    requires IsMember(json, member, b) && ScansTo(json, rest, bs, Bind(t, b))
    ensures ScansTo(json, member + rest, [b] + bs, t)
  {
    MemberTurns(json, member, rest, t, b);
    assert ([b] + bs)[1..] == bs;
  }

  lemma LastMemberScan(json: string, member: seq<Token>, b: Binding, t: Ticker)
    requires IsMember(json, member, b)
    ensures ScansTo(json, member, [b], t)
  {
    assert member + [] == member && [b] + [] == [b];
    MemberScan(json, member, [], b, [], t);
  }

  lemma MoreMembersScan(json: string, m: Member, others: Members, at: nat, k: string, t: Ticker)
    requires at <= |json| && json[at..] == WriteMember(m, "," + WriteMembers(others, k))
    requires WellFormedMember(m) && Quiet(m.element.value)
    requires ScansTo(json, MembersTokens(others, at + |WriteMember(m, "")| + 1), Bindings(others),
                     Bind(t, BindingOf(m)))
    ensures ScansTo(json, MembersTokens(MoreMembers(m, others), at), Bindings(MoreMembers(m, others)), t)
  {
    MemberPlaced(json, m, at, "," + WriteMembers(others, k));
    MemberScan(json, MemberTokens(m, at), MembersTokens(others, at + |WriteMember(m, "")| + 1), BindingOf(m),
               Bindings(others), t);
  }

  lemma {:induction false} MembersScan(json: string, ms: Members, at: nat, k: string, t: Ticker)
    requires at <= |json| && json[at..] == WriteMembers(ms, k)
    requires WellFormedMembers(ms) && Tame(ms) && EndsElement(k)
    decreases ms
    ensures ScansTo(json, MembersTokens(ms, at), Bindings(ms), t)
  {
    match ms
    case LastMember(m) =>
      MemberPlaced(json, m, at, k);
      LastMemberScan(json, MemberTokens(m, at), BindingOf(m), t);
      assert Bindings(ms) == [BindingOf(m)];
    case MoreMembers(m, others) =>
      OthersPlaced(json, m, others, at, k);
      MembersScan(json, others, at + |WriteMember(m, "")| + 1, k, Bind(t, BindingOf(m)));
      MoreMembersScan(json, m, others, at, k, t);
  }

  /** The gaps of a ticker text around the names and braces outside the inner object. */
  datatype Layout = Layout(
    start: string, beforePair: string, afterPair: string, beforeInner: string, afterInner: string, end: string)

  function PairLabel(gaps: Layout, pair: string): Label {
    Label(gaps.beforePair, pair, gaps.afterPair)
  }

  function InnerElement(gaps: Layout, inner: Members): Element {
    Element(gaps.beforeInner, Object(inner), gaps.afterInner)
  }

  /** `{"pair": {...}}`. */
  function TickerElement(gaps: Layout, pair: string, inner: Members): Element {
    Element(gaps.start, Object(LastMember(Member(PairLabel(gaps, pair), InnerElement(gaps, inner)))), gaps.end)
  }

  function TickerText(gaps: Layout, pair: string, inner: Members): string {
    Write(TickerElement(gaps, pair, inner), "")
  }

  /** Where the inner object's members start. */
  function InnerStart(gaps: Layout, pair: string): nat {
    |gaps.start| + 1 + |WriteLabel(PairLabel(gaps, pair), "")| + |gaps.beforeInner| + 1
  }

  /** Three tokens come before those of the inner members. */
  lemma TickerTokens(gaps: Layout, pair: string, inner: Members)
    ensures var toks := ElementTokens(TickerElement(gaps, pair, inner), 0);
            && |toks| > 3 && toks[3..] == MembersTokens(inner, InnerStart(gaps, pair))
            && toks[0].kind.ObjectToken? && toks[2].kind.ObjectToken?
            && var name := |gaps.start| + 1 + |gaps.beforePair| + 1;
               toks[1] == Token(StringToken, name, name + |pair|)
  {
    var e := TickerElement(gaps, pair, inner);
    var m := e.value.members.member;
    var at := |gaps.start| + 1;
    PairTokens(m, at, inner);
    var first := Token(ObjectToken, |gaps.start|, |gaps.start| + |WriteValue(e.value, "")|);
    MemberTokensOfObject(e.value, |gaps.start|, m);
    assert ElementTokens(e, 0) == [first] + MemberTokens(m, at);
  }

  lemma MemberTokensOfObject(v: Value, at: nat, m: Member)
    requires v == Object(LastMember(m))
    ensures ValueTokens(v, at) == [Token(ObjectToken, at, at + |WriteValue(v, "")|)] + MemberTokens(m, at + 1)
  {
    assert MembersTokens(v.members, at + 1) == MemberTokens(m, at + 1);
  }

  lemma PairTokens(m: Member, at: nat, inner: Members)
    requires m.element.value == Object(inner)
    ensures var toks, name := MemberTokens(m, at), at + |m.tag.before| + 1;
            && |toks| > 2 && toks[0] == Token(StringToken, name, name + |m.tag.name|)
            && toks[1].kind.ObjectToken?
            && toks[2..] == MembersTokens(inner, at + |WriteLabel(m.tag, "")| + |m.element.before| + 1)
  {
    var start := at + |WriteLabel(m.tag, "")| + |m.element.before|;
    MembersTokensNotEmpty(inner, start + 1);
    var inside := ValueTokens(Object(inner), start);
    assert inside[1..] == MembersTokens(inner, start + 1);
    assert MemberTokens(m, at)[2..] == inside[1..];
  }

  /** The inner members' text, and what ends it. */
  function AfterInner(gaps: Layout): string {
    "}" + (gaps.afterInner + ("}" + (gaps.end + "")))
  }

  lemma PairPlaced(gaps: Layout, pair: string, inner: Members)
    ensures var e, at := TickerElement(gaps, pair, inner), |gaps.start| + 1;
            && at <= |Write(e, "")|
            && Write(e, "")[at..] == WriteMember(e.value.members.member, "}" + (gaps.end + ""))
  {
    var e := TickerElement(gaps, pair, inner);
    var json, ms, k := Write(e, ""), e.value.members, "}" + (gaps.end + "");
    assert json[0..] == json;
    Shift(json, 0, gaps.start, WriteValue(e.value, gaps.end + ""));
    assert WriteMembers(ms, k) == WriteMember(ms.member, k);
    Shift(json, |gaps.start|, "{", WriteMembers(ms, k));
  }

  /** Where the pair's name lies, and where its value starts. */
  lemma PairNamePlaced(gaps: Layout, pair: string, inner: Members)
    ensures var json, name := TickerText(gaps, pair, inner), |gaps.start| + 1 + |gaps.beforePair| + 1;
            name + |pair| <= |json| && json[name..name + |pair|] == pair
    ensures var json, at := TickerText(gaps, pair, inner), |gaps.start| + 1 + |WriteLabel(PairLabel(gaps, pair), "")|;
            at <= |json| && json[at..] == Write(InnerElement(gaps, inner), "}" + (gaps.end + ""))
  {
    PairPlaced(gaps, pair, inner);
    LabelPlaced(TickerText(gaps, pair, inner), PairLabel(gaps, pair), |gaps.start| + 1,
                Write(InnerElement(gaps, inner), "}" + (gaps.end + "")));
  }

  lemma InnerPlaced(gaps: Layout, pair: string, inner: Members)
    ensures var json, at := TickerText(gaps, pair, inner), InnerStart(gaps, pair);
            at <= |json| && json[at..] == WriteMembers(inner, AfterInner(gaps))
  {
    PairNamePlaced(gaps, pair, inner);
    ObjectPlaced(TickerText(gaps, pair, inner), InnerElement(gaps, inner),
                 |gaps.start| + 1 + |WriteLabel(PairLabel(gaps, pair), "")|, "}" + (gaps.end + ""));
  }

  lemma ObjectPlaced(json: string, e: Element, at: nat, k: string)
    requires at <= |json| && json[at..] == Write(e, k) && e.value.Object?
    ensures var inner := at + |e.before| + 1;
            inner <= |json| && json[inner..] == WriteMembers(e.value.members, "}" + (e.after + k))
  {
    var ms := WriteMembers(e.value.members, "}" + (e.after + k));
    Shift(json, at, e.before, "{" + ms);
    Shift(json, at + |e.before|, "{", ms);
  }

  lemma MembersTokensNotEmpty(ms: Members, at: nat)
    ensures MembersTokens(ms, at) != []
  {
  }

  /** The tokens start with an object and the pair's name. */
  predicate IsPair(json: string, toks: seq<Token>, pair: string) {
    && |toks| > 2 && toks[0].kind.ObjectToken? && toks[1].kind.StringToken?
    && Inside(json, toks[1]) && Slice(json, toks[1]) == pair
  }

  lemma TickerIsPair(gaps: Layout, pair: string, inner: Members)
    ensures IsPair(TickerText(gaps, pair, inner), ElementTokens(TickerElement(gaps, pair, inner), 0), pair)
  {
    TickerTokens(gaps, pair, inner);
    PairNamePlaced(gaps, pair, inner);
  }

  lemma ParseScans(jsmn: Tokenizer, json: string, toks: seq<Token>, pair: string, bs: seq<Binding>, junk: Ticker)
    requires jsmn(json) == Tokenised(toks) && IsPair(json, toks, pair)
    requires ScansTo(json, toks[2..], bs, junk.(pair := pair))
    ensures ParseTicker(jsmn, json, junk) == Extracted(BindAll(bs, junk.(pair := pair)))
  {
  }

  lemma Tokenises(jsmn: Tokenizer, e: Element)
    requires AgreesWithGrammar(jsmn) && WellFormed(e) && IsObject(e.value)
    ensures jsmn(Write(e, "")) == Tokenised(ElementTokens(e, 0))
  {
  }

  /** On a ticker text the parse succeeds, and binds the members in order onto what the
      ticker's memory held. */
  lemma ParseBindsMembers(jsmn: Tokenizer, gaps: Layout, pair: string, inner: Members, junk: Ticker)
    requires AgreesWithGrammar(jsmn) && WellFormed(TickerElement(gaps, pair, inner)) && Tame(inner)
    ensures ParseTicker(jsmn, TickerText(gaps, pair, inner), junk)
         == Extracted(BindAll(Bindings(inner), junk.(pair := pair)))
  {
    var e := TickerElement(gaps, pair, inner);
    Tokenises(jsmn, e);
    TickerIsPair(gaps, pair, inner);
    TickerScan(gaps, pair, inner, junk.(pair := pair));
    ParseScans(jsmn, TickerText(gaps, pair, inner), ElementTokens(e, 0), pair, Bindings(inner), junk);
  }

  lemma TickerScan(gaps: Layout, pair: string, inner: Members, t: Ticker)
    requires WellFormed(TickerElement(gaps, pair, inner)) && Tame(inner)
    ensures |ElementTokens(TickerElement(gaps, pair, inner), 0)| > 3
    ensures ScansTo(TickerText(gaps, pair, inner), ElementTokens(TickerElement(gaps, pair, inner), 0)[2..],
                    Bindings(inner), t)
  {
    var json, toks := TickerText(gaps, pair, inner), ElementTokens(TickerElement(gaps, pair, inner), 0);
    TickerTokens(gaps, pair, inner);
    InnerPlaced(gaps, pair, inner);
    InnerWellFormed(gaps, pair, inner);
    MembersScan(json, inner, InnerStart(gaps, pair), AfterInner(gaps), t);
    assert json[0..] == json;
    ElementFits(json, TickerElement(gaps, pair, inner), 0, "");
    SkipFirst(json, toks[2..], t);
    assert toks[2..][1..] == toks[3..];
  }

  lemma SkipFirst(json: string, toks: seq<Token>, t: Ticker)
    requires toks != [] && Inside(json, toks[0]) && !IsKey(json, toks[0]) && Scannable(json, toks[1..])
    ensures Scannable(json, toks) && Scan(json, toks, t) == Scan(json, toks[1..], t)
  {
    FitsOne(json, toks[0]);
    assert toks[..1] == [toks[0]];
    SkipQuiet(json, toks, 1, t);
  }

  lemma InnerWellFormed(gaps: Layout, pair: string, inner: Members)
    requires WellFormed(TickerElement(gaps, pair, inner))
    ensures WellFormedMembers(inner)
  {
    var v := TickerElement(gaps, pair, inner).value;
    var m := v.members.member;
    assert WellFormedValue(v);
    assert WellFormedMembers(v.members);
    assert WellFormedMember(m);
    assert WellFormed(m.element);
    assert WellFormedValue(m.element.value);
  }

  // ----- order and unknown members ------------------------------------------------------

  /** The text of the last member with the given name. */
  function Lookup(bs: seq<Binding>, key: string): (r: Option<string>)
    ensures r.Some? ==> (key, r.value) in bs
    ensures r.None? ==> forall b :: b in bs ==> b.0 != key
  {
    if bs == [] then None
    else
      match Lookup(bs[1..], key)
      case Some(text) => Some(text)
      case None => if bs[0].0 == key then Some(bs[0].1) else None
  }

  /** It is that of a member behind which none has the name. */
  lemma {:induction false} LookupExactly(bs: seq<Binding>, key: string, text: string)
    ensures Lookup(bs, key) == Some(text)
       <==> exists i :: 0 <= i < |bs| && bs[i] == (key, text) && forall j :: i < j < |bs| ==> bs[j].0 != key
  {
    if bs != [] {
      var rest := bs[1..];
      LookupExactly(rest, key, text);
      assert forall j :: 0 <= j < |rest| ==> rest[j] == bs[j + 1];
      if Lookup(rest, key) == Some(text) {
        var i :| 0 <= i < |rest| && rest[i] == (key, text) && forall j :: i < j < |rest| ==> rest[j].0 != key;
        assert bs[i + 1] == (key, text);
      } else if Lookup(bs, key) == Some(text) {
        assert bs[0] == (key, text) && forall j :: 0 < j < |bs| ==> bs[j] == rest[j - 1] && bs[j] in rest;
      }
      if i :| 0 <= i < |bs| && bs[i] == (key, text) && forall j :: i < j < |bs| ==> bs[j].0 != key {
        if i > 0 {
          assert rest[i - 1] == (key, text);
        } else {
          assert forall b :: b in rest ==> b.0 != key;
        }
      }
    }
  }

  predicate Distinct(bs: seq<Binding>) {
    forall i, j :: 0 <= i < j < |bs| ==> bs[i].0 != bs[j].0
  }

  lemma DistinctLookup(bs: seq<Binding>, b: Binding)
    requires Distinct(bs) && b in bs
    ensures Lookup(bs, b.0) == Some(b.1)
  {
    assert Lookup(bs, b.0).Some?;
  }

  /** With distinct names the order of the members does not matter. */
  lemma PermutedLookup(bs: seq<Binding>, cs: seq<Binding>, key: string)
    requires Distinct(bs) && multiset(bs) == multiset(cs)
    ensures Lookup(cs, key) == Lookup(bs, key)
  {
    assert forall b :: b in bs <==> b in multiset(bs);
    assert forall b :: b in cs <==> b in multiset(cs);
    if Lookup(cs, key).Some? {
      DistinctLookup(bs, (key, Lookup(cs, key).value));
    }
  }

  lemma {:induction false} BindAllLookup(bs: seq<Binding>, t: Ticker, f: Field)
    ensures BindAll(bs, t).Get(f)
         == match Lookup(bs, Name(f)) case None => t.Get(f) case Some(text) => Strtold(text)
  {
    if bs != [] {
      BindAllLookup(bs[1..], Bind(t, bs[0]), f);
      assert Bind(t, bs[0]).Get(f) == BindField(bs[0], f, t.Get(f));
    }
  }

  lemma {:induction false} BindAllUpdated(bs: seq<Binding>, t: Ticker)
    ensures BindAll(bs, t).updated
         == match Lookup(bs, UPDATED) case None => t.updated case Some(text) => IntOf(text)
    ensures BindAll(bs, t).pair == t.pair
  {
    if bs != [] {
      BindAllUpdated(bs[1..], Bind(t, bs[0]));
    }
  }

  /** The members with one of the nine names. */
  function Known(bs: seq<Binding>): seq<Binding> {
    if bs == [] then []
    else (if IsKeyName(bs[0].0) then [bs[0]] else []) + Known(bs[1..])
  }

  /** Members with other names have no effect, wherever they stand. */
  lemma {:induction false} UnknownIgnored(bs: seq<Binding>, t: Ticker)
    ensures BindAll(bs, t) == BindAll(Known(bs), t)
  {
    if bs != [] {
      UnknownIgnored(bs[1..], Bind(t, bs[0]));
      if IsKeyName(bs[0].0) {
        assert Known(bs)[1..] == Known(bs[1..]);
      } else {
        assert forall f: Field :: bs[0].0 != Name(f);
        assert Bind(t, bs[0]) == t;
        assert Known(bs) == Known(bs[1..]);
      }
    }
  }

  lemma PermutedBindAll(bs: seq<Binding>, cs: seq<Binding>, t: Ticker)
    requires Distinct(bs) && multiset(bs) == multiset(cs)
    ensures BindAll(bs, t) == BindAll(cs, t)
  {
    forall f: Field
      ensures BindAll(bs, t).Get(f) == BindAll(cs, t).Get(f)
    {
      BindAllLookup(bs, t, f);
      BindAllLookup(cs, t, f);
      PermutedLookup(bs, cs, Name(f));
    }
    BindAllUpdated(bs, t);
    BindAllUpdated(cs, t);
    PermutedLookup(bs, cs, UPDATED);
    SameTicker(BindAll(bs, t), BindAll(cs, t));
  }

  /** Two ticker texts that bind the nine names alike, in whatever order, spacing and company
      of other members, are parsed alike. */
  lemma OrderAndCompanyDoNotMatter(
    jsmn: Tokenizer, gaps: Layout, gaps': Layout, pair: string, inner: Members, inner': Members, junk: Ticker)
    requires AgreesWithGrammar(jsmn) && Tame(inner) && Tame(inner')
    requires WellFormed(TickerElement(gaps, pair, inner)) && WellFormed(TickerElement(gaps', pair, inner'))
    requires Distinct(Known(Bindings(inner)))
    requires multiset(Known(Bindings(inner))) == multiset(Known(Bindings(inner')))
    ensures ParseTicker(jsmn, TickerText(gaps, pair, inner), junk)
         == ParseTicker(jsmn, TickerText(gaps', pair, inner'), junk)
  {
    var t := junk.(pair := pair);
    ParseBindsMembers(jsmn, gaps, pair, inner, junk);
    ParseBindsMembers(jsmn, gaps', pair, inner', junk);
    UnknownIgnored(Bindings(inner), t);
    UnknownIgnored(Bindings(inner'), t);
    PermutedBindAll(Known(Bindings(inner)), Known(Bindings(inner')), t);
  }

  /** What a number is after the members: each with the key as its name replaces it. */
  function NumberOf(bs: seq<Binding>, key: string, before: Double): Double {
    if bs == [] then before
    else NumberOf(bs[1..], key, if bs[0].0 == key then Strtold(bs[0].1) else before)
  }

  function TimeOf(bs: seq<Binding>, key: string, before: CInt): CInt {
    if bs == [] then before
    else TimeOf(bs[1..], key, if bs[0].0 == key then IntOf(bs[0].1) else before)
  }

  /** That is the number of the last such member. */
  lemma {:induction false} NumberOfLookup(bs: seq<Binding>, key: string, before: Double)
    ensures NumberOf(bs, key, before)
         == match Lookup(bs, key) case None => before case Some(text) => Strtold(text)
  {
    if bs != [] {
      NumberOfLookup(bs[1..], key, if bs[0].0 == key then Strtold(bs[0].1) else before);
    }
  }

  lemma {:induction false} TimeOfLookup(bs: seq<Binding>, key: string, before: CInt)
    ensures TimeOf(bs, key, before)
         == match Lookup(bs, key) case None => before case Some(text) => IntOf(text)
  {
    if bs != [] {
      TimeOfLookup(bs[1..], key, if bs[0].0 == key then IntOf(bs[0].1) else before);
    }
  }

  /** Which member fills which field. */
  predicate NineMembers(bs: seq<Binding>, t: Ticker, t': Ticker) {
    AverageMembers(bs, t, t') && DealMembers(bs, t, t') && t'.updated == TimeOf(bs, "updated", t.updated)
  }

  predicate AverageMembers(bs: seq<Binding>, t: Ticker, t': Ticker) {
    && t'.high == NumberOf(bs, "high", t.high)
    && t'.low == NumberOf(bs, "low", t.low)
    && t'.avg == NumberOf(bs, "avg", t.avg)
    && t'.vol == NumberOf(bs, "vol", t.vol)
    && t'.volCur == NumberOf(bs, "vol_cur", t.volCur)
  }

  predicate DealMembers(bs: seq<Binding>, t: Ticker, t': Ticker) {
    && t'.last == NumberOf(bs, "last", t.last)
    && t'.buy == NumberOf(bs, "buy", t.buy)
    && t'.sell == NumberOf(bs, "sell", t.sell)
  }

  lemma BindAllBinds(bs: seq<Binding>, t: Ticker, t': Ticker, f: Field, key: string)
    requires key == Name(f) && t' == BindAll(bs, t)
    ensures t'.Get(f) == NumberOf(bs, key, t.Get(f))
  {
    BindAllLookup(bs, t, f);
    NumberOfLookup(bs, key, t.Get(f));
  }

  lemma BindAllBindsTime(bs: seq<Binding>, t: Ticker, t': Ticker, key: string)
    requires key == UPDATED && t' == BindAll(bs, t)
    ensures t'.updated == TimeOf(bs, key, t.updated)
  {
    BindAllUpdated(bs, t);
    TimeOfLookup(bs, key, t.updated);
  }

  lemma BindAllAverages(bs: seq<Binding>, t: Ticker, t': Ticker)
    requires t' == BindAll(bs, t)
    ensures AverageMembers(bs, t, t')
  {
    BindAllBinds(bs, t, t', HIGH, "high");
    BindAllBinds(bs, t, t', LOW, "low");
    BindAllBinds(bs, t, t', AVG, "avg");
    BindAllBinds(bs, t, t', VOL, "vol");
    BindAllBinds(bs, t, t', VOL_CUR, "vol_cur");
  }

  lemma BindAllDeals(bs: seq<Binding>, t: Ticker, t': Ticker)
    requires t' == BindAll(bs, t)
    ensures DealMembers(bs, t, t')
  {
    BindAllBinds(bs, t, t', LAST, "last");
    BindAllBinds(bs, t, t', BUY, "buy");
    BindAllBinds(bs, t, t', SELL, "sell");
  }

  lemma BindAllNine(bs: seq<Binding>, t: Ticker, t': Ticker)
    requires t' == BindAll(bs, t)
    ensures NineMembers(bs, t, t')
  {
    BindAllAverages(bs, t, t');
    BindAllDeals(bs, t, t');
    BindAllBindsTime(bs, t, t', "updated");
  }

  /** On a ticker text with quiet values, each field ends as the number of the last member of
      its own name, or as what the memory held. */
  lemma TickerFillsNine(jsmn: Tokenizer, gaps: Layout, pair: string, inner: Members, junk: Ticker)
    requires AgreesWithGrammar(jsmn) && WellFormed(TickerElement(gaps, pair, inner)) && Tame(inner)
    ensures var outcome := ParseTicker(jsmn, TickerText(gaps, pair, inner), junk);
            outcome.Extracted? && outcome.ticker.pair == pair && NineMembers(Bindings(inner), junk, outcome.ticker)
  {
    var start := junk.(pair := pair);
    ParseBindsMembers(jsmn, gaps, pair, inner, junk);
    BindAllNine(Bindings(inner), start, BindAll(Bindings(inner), start));
    BindAllUpdated(Bindings(inner), start);
  }

  // ----- the round trip -----------------------------------------------------------------

  /** The decimal `digits` times ten to the power `-scale`. */
  datatype Price = Price(digits: int, scale: nat)

  type Prices = Field -> Price

  function PriceBinding(prices: Prices, f: Field): Binding {
    (Name(f), Fixed(prices(f).digits, prices(f).scale))
  }

  function FieldAt(i: nat): Field {
    match i
    case 0 => HIGH
    case 1 => LOW
    case 2 => AVG
    case 3 => VOL
    case 4 => VOL_CUR
    case 5 => LAST
    case 6 => BUY
    case _ => SELL
  }

  function Position(f: Field): (i: nat)
    ensures i < 8 && FieldAt(i) == f
  {
    match f
    case HIGH => 0
    case LOW => 1
    case AVG => 2
    case VOL => 3
    case VOL_CUR => 4
    case LAST => 5
    case BUY => 6
    case SELL => 7
  }

  /** A quote's nine members, in the order of the structure's fields. */
  function QuoteBindings(prices: Prices, updated: CInt): seq<Binding> {
    seq(8, i requires 0 <= i < 8 => PriceBinding(prices, FieldAt(i))) + [(UPDATED, SignedDecimal(updated))]
  }

  function PriceValue(p: Price): Double {
    Finite(p.digits, 10, -(p.scale as int))
  }

  function QuoteTicker(pair: string, prices: Prices, updated: CInt): Ticker {
    Ticker(pair, PriceValue(prices(HIGH)), PriceValue(prices(LOW)), PriceValue(prices(AVG)),
           PriceValue(prices(VOL)), PriceValue(prices(VOL_CUR)), PriceValue(prices(LAST)),
           PriceValue(prices(BUY)), PriceValue(prices(SELL)), updated)
  }

  lemma QuoteNamesDiffer(prices: Prices, updated: CInt, i: nat, j: nat)
    requires i < j < 9
    ensures QuoteBindings(prices, updated)[i].0 != QuoteBindings(prices, updated)[j].0
  {
    NamesDiffer(FieldAt(i));
    assert Position(FieldAt(i)) == i;
    if j < 8 {
      assert Position(FieldAt(j)) == j;
    }
  }

  lemma QuoteBindingsDistinct(prices: Prices, updated: CInt)
    ensures Distinct(QuoteBindings(prices, updated))
    ensures forall f: Field :: PriceBinding(prices, f) in QuoteBindings(prices, updated)
    ensures (UPDATED, SignedDecimal(updated)) in QuoteBindings(prices, updated)
  {
    var bs := QuoteBindings(prices, updated);
    forall i, j | 0 <= i < j < |bs|
      ensures bs[i].0 != bs[j].0
    {
      QuoteNamesDiffer(prices, updated, i, j);
    }
    forall f: Field
      ensures PriceBinding(prices, f) in bs
    {
      assert bs[Position(f)] == PriceBinding(prices, f);
    }
    assert bs[8] == (UPDATED, SignedDecimal(updated));
  }

  lemma QuoteFields(pair: string, prices: Prices, updated: CInt, f: Field)
    ensures QuoteTicker(pair, prices, updated).Get(f) == PriceValue(prices(f))
  {
  }

  lemma QuoteField(prices: Prices, updated: CInt, t: Ticker, f: Field)
    ensures BindAll(QuoteBindings(prices, updated), t).Get(f) == PriceValue(prices(f))
  {
    var bs := QuoteBindings(prices, updated);
    QuoteBindingsDistinct(prices, updated);
    BindAllLookup(bs, t, f);
    DistinctLookup(bs, PriceBinding(prices, f));
    DoubleOfFixed(prices(f).digits, prices(f).scale);
  }

  lemma QuoteBindAll(pair: string, prices: Prices, updated: CInt, t: Ticker)
    requires t.pair == pair
    ensures BindAll(QuoteBindings(prices, updated), t) == QuoteTicker(pair, prices, updated)
  {
    var bs := QuoteBindings(prices, updated);
    QuoteBindingsDistinct(prices, updated);
    forall f: Field
      ensures BindAll(bs, t).Get(f) == QuoteTicker(pair, prices, updated).Get(f)
    {
      QuoteField(prices, updated, t, f);
      QuoteFields(pair, prices, updated, f);
    }
    BindAllUpdated(bs, t);
    DistinctLookup(bs, (UPDATED, SignedDecimal(updated)));
    IntOfDecimal(updated);
    SameTicker(BindAll(bs, t), QuoteTicker(pair, prices, updated));
  }

  /** A quote is written with these keys, each for the number of its own name. */
  lemma QuoteKey(prices: Prices, updated: CInt, f: Field, key: string)
    requires (f, key) in [(HIGH, "high"), (LOW, "low"), (AVG, "avg"), (VOL, "vol"), (VOL_CUR, "vol_cur"),
                          (LAST, "last"), (BUY, "buy"), (SELL, "sell")]
    ensures (key, Fixed(prices(f).digits, prices(f).scale)) in QuoteBindings(prices, updated)
    ensures ("updated", SignedDecimal(updated)) in QuoteBindings(prices, updated)
    ensures |QuoteBindings(prices, updated)| == 9
  {
    QuoteBindingsDistinct(prices, updated);
    assert key == Name(f);
    assert PriceBinding(prices, f) in QuoteBindings(prices, updated);
  }

  /** Written out in any order, with any spacing and any other members, tokenised and
      extracted, a quote comes back as it was, whatever the ticker's memory held. */
  lemma RoundTrip(
    jsmn: Tokenizer, gaps: Layout, pair: string, prices: Prices, updated: CInt, inner: Members, junk: Ticker)
    requires AgreesWithGrammar(jsmn) && WellFormed(TickerElement(gaps, pair, inner)) && Tame(inner)
    requires multiset(Known(Bindings(inner))) == multiset(QuoteBindings(prices, updated))
    ensures ParseTicker(jsmn, TickerText(gaps, pair, inner), junk)
         == Extracted(QuoteTicker(pair, prices, updated))
  {
    var t := junk.(pair := pair);
    ParseBindsMembers(jsmn, gaps, pair, inner, junk);
    UnknownIgnored(Bindings(inner), t);
    QuoteBindingsDistinct(prices, updated);
    PermutedBindAll(QuoteBindings(prices, updated), Known(Bindings(inner)), t);
    QuoteBindAll(pair, prices, updated, t);
  }

  /** Members without spacing for a list of bindings. */
  function MembersOf(bs: seq<Binding>): Members
    requires bs != []
  {
    var m := Member(Label("", bs[0].0, ""), Element("", Number(bs[0].1), ""));
    if |bs| == 1 then LastMember(m) else MoreMembers(m, MembersOf(bs[1..]))
  }

  /** Every list of JSON names and numbers can be written as members. */
  lemma {:induction false} BindingsCanBeWritten(bs: seq<Binding>)
    requires bs != [] && forall b :: b in bs ==> IsBody(b.0) && IsNumber(b.1)
    ensures WellFormedMembers(MembersOf(bs)) && Tame(MembersOf(bs)) && Bindings(MembersOf(bs)) == bs
  {
    assert bs[0] in bs;
    MemberWellFormed(Label("", bs[0].0, ""), "", Number(bs[0].1));
    if |bs| > 1 {
      BindingsCanBeWritten(bs[1..]);
    }
  }

  /** A list of known names stays as it is. */
  lemma {:induction false} AllKnown(bs: seq<Binding>)
    requires forall b :: b in bs ==> IsKeyName(b.0)
    ensures Known(bs) == bs
  {
    if bs != [] {
      assert bs[0] in bs;
      AllKnown(bs[1..]);
    }
  }

  lemma NameIsPlain(f: Field)
    ensures Plain(Name(f))
  {
  }

  lemma NameIsBody(f: Field)
    ensures IsBody(Name(f))
  {
    NameIsPlain(f);
    PlainIsBody(Name(f));
  }

  lemma UpdatedIsBody()
    ensures IsBody(UPDATED)
  {
    PlainIsBody(UPDATED);
  }

  lemma QuoteBindingCanBeWritten(prices: Prices, updated: CInt, i: nat)
    requires i < 9
    ensures var b := QuoteBindings(prices, updated)[i]; IsKeyName(b.0) && IsBody(b.0) && IsNumber(b.1)
  {
    var f := FieldAt(i);
    NameIsBody(f);
    UpdatedIsBody();
    FixedIsNumber(prices(f).digits, prices(f).scale);
    SignedDecimalIsNumber(updated);
  }

  lemma SameMembers(bs: seq<Binding>, cs: seq<Binding>)
    requires multiset(bs) == multiset(cs)
    ensures forall b :: b in bs <==> b in cs
  {
    assert forall b :: b in bs <==> b in multiset(bs);
    assert forall b :: b in cs <==> b in multiset(cs);
  }

  /** Every order of a quote's members can be written, so the round trip is about something. */
  lemma QuoteCanBeWritten(prices: Prices, updated: CInt, bs: seq<Binding>)
    requires multiset(bs) == multiset(QuoteBindings(prices, updated))
    ensures bs != [] && WellFormedMembers(MembersOf(bs)) && Tame(MembersOf(bs))
    ensures Known(Bindings(MembersOf(bs))) == bs
  {
    var cs := QuoteBindings(prices, updated);
    SameMembers(bs, cs);
    forall b | b in bs
      ensures IsKeyName(b.0) && IsBody(b.0) && IsNumber(b.1)
    {
      var i :| 0 <= i < |cs| && cs[i] == b;
      QuoteBindingCanBeWritten(prices, updated, i);
    }
    assert cs[8] in cs;
    BindingsCanBeWritten(bs);
    AllKnown(bs);
  }
}
