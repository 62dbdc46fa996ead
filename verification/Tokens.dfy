/**
 JSON tokens and the readers of src/common/json/json.c.

 The tokeniser itself (jsmn) is not part of this model. What is assumed of it is the
 function `ElementTokens`: the tokens of a text, read off the text's derivation tree.
 */
module Tokens {
  import opened Common
  import opened Text
  import opened Json
  import opened Numbers

  datatype Kind = Undefined | ObjectToken | ArrayToken | StringToken | Primitive

  /** A half-open range of the text; a string token leaves out its quotes. */
  datatype Token = Token(kind: Kind, start: int, end: int)

  predicate Inside(json: string, t: Token) {
    0 <= t.start <= t.end <= |json|
  }

  function Slice(json: string, t: Token): string
    requires Inside(json, t)
  {
    json[t.start..t.end]
  }

  /** Compares in the text and by length, and so decides equality with the slice. */
  predicate EqualJsonKey(json: string, t: Token, key: CString)
    requires Inside(json, t)
    ensures EqualJsonKey(json, t, key) <==> t.kind.StringToken? && Slice(json, t) == key
  {
    SameFirstIsPrefix(key, json[t.start..]);
    assert |key| == t.end - t.start ==> (key <= json[t.start..] <==> Slice(json, t) == key);
    t.kind.StringToken? && |key| == t.end - t.start && SameFirst(json[t.start..], key, t.end - t.start)
  }

  const ZERO := Finite(0, 10, 0)

  function GetJsonDouble(json: string, t: Token): Double
    requires Inside(json, t)
  {
    if !t.kind.Primitive? then ZERO else Strtold(json[t.start..])
  }

  function GetJsonInt(json: string, t: Token): CInt
    requires Inside(json, t)
  {
    if !t.kind.Primitive? then 0 else IntOf(json[t.start..])
  }

  /** A primitive as a tokeniser leaves it: not empty, no space in front, and ended by a
      delimiter or by the end of the text. */
  predicate IsPrimitiveIn(json: string, t: Token) {
    Inside(json, t) && t.kind.Primitive? && t.start < t.end && !IsSpace(json[t.start]) && Ends(json[t.end..])
  }

  lemma SliceAndRest(json: string, t: Token)
    requires IsPrimitiveIn(json, t)
    ensures json[t.start..] == Slice(json, t) + json[t.end..]
    ensures Slice(json, t) != "" && !IsSpace(Slice(json, t)[0])
  {
  }

  /** The readers never look at a token's end, and still read its slice only. */
  lemma ReadersUseTheSlice(json: string, t: Token)
    requires IsPrimitiveIn(json, t)
    ensures GetJsonInt(json, t) == IntOf(Slice(json, t))
    ensures GetJsonDouble(json, t) == Strtold(Slice(json, t))
  {
    SliceAndRest(json, t);
    StrtolStops(Slice(json, t), json[t.end..]);
    StrtoldStops(Slice(json, t), json[t.end..]);
  }

  /** An integer token is read as the integer it denotes exactly when that fits an `int`. */
  lemma IntegerTokenExactly(json: string, t: Token)
    requires IsPrimitiveIn(json, t) && IsInteger(Slice(json, t))
    ensures GetJsonInt(json, t) == Denoted(Slice(json, t)) <==> -2147483648 <= Denoted(Slice(json, t)) <= 2147483647
  {
    ReadersUseTheSlice(json, t);
    IntOfInteger(Slice(json, t));
  }

  /** A number token is read as the number its parts denote, exponent and all. */
  lemma NumberTokenIsRead(json: string, t: Token) returns (n: Notation)
    requires IsPrimitiveIn(json, t) && IsNumber(Slice(json, t))
    ensures IsSection6(n) && n.sign + NotationText(n) == Slice(json, t)
    ensures GetJsonDouble(json, t) == NotationValue(n)
  {
    ReadersUseTheSlice(json, t);
    n := NumberIsRead(Slice(json, t));
  }

  /** Anything else is read as zero. */
  lemma OthersReadAsZero(json: string, t: Token)
    requires Inside(json, t)
    requires t.kind != Primitive || (IsPrimitiveIn(json, t) && Slice(json, t) in ["true", "false", "null"])
    ensures GetJsonDouble(json, t) == Finite(0, 10, 0) && GetJsonInt(json, t) == 0
  {
    if t.kind == Primitive {
      ReadersUseTheSlice(json, t);
      LiteralsAreZero(Slice(json, t));
    }
  }

  // ----- the tokeniser ------------------------------------------------------------------

  datatype JsmnCode = NoMemory | Invalid | Partial | OtherCode

  datatype Tokenised = Tokenised(tokens: seq<Token>) | Refused(code: JsmnCode)

  type Tokenizer = string -> Tokenised

  function JsmnError(code: JsmnCode): Errno {
    match code
    case NoMemory => ENOMEM
    case Invalid => EIO
    case Partial => EAGAIN
    case OtherCode => ENOENT
  }

  /** The tokens of an element whose text starts at `at`. */
  function ElementTokens(e: Element, at: nat): seq<Token>
    decreases e, 1
  {
    ValueTokens(e.value, at + |e.before|)
  }

  function ValueTokens(v: Value, at: nat): seq<Token>
    decreases v, 0
  {
    match v
    case Literal(t) => [Token(Primitive, at, at + |t|)]
    case Number(t) => [Token(Primitive, at, at + |t|)]
    case String(r) => [Token(StringToken, at + 1, at + 1 + |r|)]
    case EmptyArray(_) => [Token(ArrayToken, at, at + |WriteValue(v, "")|)]
    case Array(items) => [Token(ArrayToken, at, at + |WriteValue(v, "")|)] + ItemsTokens(items, at + 1)
    case EmptyObject(_) => [Token(ObjectToken, at, at + |WriteValue(v, "")|)]
    case Object(ms) => [Token(ObjectToken, at, at + |WriteValue(v, "")|)] + MembersTokens(ms, at + 1)
  }

  function ItemsTokens(items: Items, at: nat): seq<Token>
    decreases items, 2
  {
    match items
    case LastItem(e) => ElementTokens(e, at)
    case MoreItems(e, others) => ElementTokens(e, at) + ItemsTokens(others, at + |Write(e, "")| + 1)
  }

  function MemberTokens(m: Member, at: nat): seq<Token>
    decreases m, 2
  {
    var name := at + |m.tag.before| + 1;
    [Token(StringToken, name, name + |m.tag.name|)] + ElementTokens(m.element, at + |WriteLabel(m.tag, "")|)
  }

  function MembersTokens(ms: Members, at: nat): seq<Token>
    decreases ms, 3
  {
    match ms
    case LastMember(m) => MemberTokens(m, at)
    case MoreMembers(m, others) => MemberTokens(m, at) + MembersTokens(others, at + |WriteMember(m, "")| + 1)
  }

  predicate IsObject(v: Value) {
    v.Object? || v.EmptyObject?
  }

  /** What is assumed of a tokeniser: it returns the tree's tokens on every JSON object. */
  ghost predicate AgreesWithGrammar(jsmn: Tokenizer) {
    forall e: Element :: WellFormed(e) && IsObject(e.value) ==> jsmn(Write(e, "")) == Tokenised(ElementTokens(e, 0))
  }

  /** The assumption can be met. */
  lemma TokenizerExists()
    ensures exists jsmn: Tokenizer :: AgreesWithGrammar(jsmn)
  {
    var jsmn: Tokenizer := s => match ParseJson(s)
      case None => Refused(Invalid)
      case Some(e) => Tokenised(ElementTokens(e, 0));
    forall e: Element | WellFormed(e) && IsObject(e.value)
      ensures jsmn(Write(e, "")) == Tokenised(ElementTokens(e, 0))
    {
      ParserIsComplete(e);
    }
    assert AgreesWithGrammar(jsmn);
  }
}
