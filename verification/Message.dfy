/**
 The message printer (src/common/msg/msg.c) and a decoder for what it prints.

 Names and data are pasted into the schema as they are, so what the output means depends
 on them: `SchemaExactly` and `DecodableExactly` say on what, both ways.
 */
module Message {
  import opened Common
  import opened Text
  import opened Json
  import opened Printf

  /** `struct msg_ctx`; no data stands for the NULL pointer. */
  datatype Message = Message(
    sender: string, recepient: string, timestamp: TimeT, kind: CInt, data: Option<string>)

  const OPENING := "{\"sender\": \""
  const TO_RECEPIENT := "\", \"recepient\":\""
  const TO_TIMESTAMP := "\", \"timestamp\": "
  const TO_KIND := ", \"message_type\": "
  const TO_DATA := ", \"message_data\": "

  function DataText(m: Message): string {
    match m.data
    case None => "{}"
    case Some(d) => d
  }

  /** The conversion to `unsigned long`. */
  function ToUnsigned(t: TimeT): nat {
    if t < 0 then t + 2 * TWO_63 else t
  }

  function ToSigned(u: nat): TimeT
    requires u < 2 * TWO_63
  {
    if u < TWO_63 then u else u - 2 * TWO_63
  }

  /** The text that `serialize_message` prints. */
  function Serialize(m: Message): string {
    OPENING + (m.sender + (TO_RECEPIENT + (m.recepient + (TO_TIMESTAMP + FromTimestamp(m)))))
  }

  function FromTimestamp(m: Message): string {
    Decimal(ToUnsigned(m.timestamp)) + (TO_KIND + (SignedDecimal(m.kind) + (TO_DATA + (DataText(m) + "}"))))
  }

  /** The arguments that the source passes to `talloc_asprintf`. */
  function Arguments(m: Message): seq<Argument> {
    [Chars(m.sender), Chars(m.recepient),
     Unsigned(if m.timestamp >= 0 then m.timestamp else m.timestamp + 18446744073709551616),
     Signed(m.kind), Chars(if m.data == None then "{}" else m.data.value)]
  }

  lemma FormatNumbers(t: string, k: string, d: string, m: Message)
    requires '%' !in t && '%' !in k && '%' !in d
    ensures Format(t + ("%lu" + (k + ("%d" + (d + ("%s" + "}"))))), Arguments(m)[2..])
         == t + (Decimal(Arguments(m)[2].n) + (k + (SignedDecimal(m.kind) + (d + (Arguments(m)[4].s + "}")))))
  {
    var args := Arguments(m);
    assert args[2..] == [args[2]] + args[3..] && args[3..] == [args[3]] + args[4..] && args[4..] == [args[4]] + [];
    FormatText(t, "%lu" + (k + ("%d" + (d + ("%s" + "}")))), args[2..]);
    FormatUnsigned(args[2].n, k + ("%d" + (d + ("%s" + "}"))), args[3..]);
    FormatText(k, "%d" + (d + ("%s" + "}")), args[3..]);
    FormatSigned(args[3].i, d + ("%s" + "}"), args[4..]);
    FormatText(d, "%s" + "}", args[4..]);
    FormatChars(args[4].s, "}", []);
    FormatEnd("}");
  }

  lemma FormatNames(o: string, r: string, rest: string, m: Message)
    requires '%' !in o && '%' !in r
    ensures Format(o + ("%s" + (r + ("%s" + rest))), Arguments(m))
         == o + (m.sender + (r + (m.recepient + Format(rest, Arguments(m)[2..]))))
  {
    var args := Arguments(m);
    assert args == [args[0]] + args[1..] && args[1..] == [args[1]] + args[2..];
    FormatText(o, "%s" + (r + ("%s" + rest)), args);
    FormatChars(m.sender, r + ("%s" + rest), args[1..]);
    FormatText(r, "%s" + rest, args[1..]);
    FormatChars(m.recepient, rest, args[2..]);
  }

  /** The first two conversions of the source's schema, and what follows them. */
  lemma FirstLine(rest: string)
    ensures "{\"sender\": \"%s\", \"recepient\":\"%s\"," + rest
         == OPENING + ("%s" + (TO_RECEPIENT + ("%s" + ("\"," + rest))))
  {
    assert "{\"sender\": \"%s\", \"recepient\":\"%s\"," == OPENING + "%s" + TO_RECEPIENT + "%s" + "\",";
  }

  lemma SecondLine(rest: string)
    ensures "\"," + (" \"timestamp\": %lu, \"message_type\": %d," + rest)
         == TO_TIMESTAMP + ("%lu" + (TO_KIND + ("%d" + ("," + rest))))
  {
    SecondLineParts();
    Flatten(TO_TIMESTAMP, "%lu", TO_KIND, "%d", ",", rest);
    Assoc("\",", " \"timestamp\": %lu, \"message_type\": %d,", rest);
  }

  lemma SecondLineParts()
    ensures "\"," + " \"timestamp\": %lu, \"message_type\": %d," == TO_TIMESTAMP + "%lu" + TO_KIND + "%d" + ","
  {
  }

  lemma Flatten(a: string, b: string, c: string, d: string, e: string, k: string)
    ensures (a + b + c + d + e) + k == a + (b + (c + (d + (e + k))))
  {
  }

  lemma ThirdLine()
    ensures "," + " \"message_data\": %s}" == TO_DATA + ("%s" + "}")
  {
  }

  /** The text is what `printf` makes of the schema in the source, line by line. */
  lemma SerializeIsPrintf(m: Message)
    ensures Serialize(m)
         == Format("{\"sender\": \"%s\", \"recepient\":\"%s\","
                   + (" \"timestamp\": %lu, \"message_type\": %d,"
                      + " \"message_data\": %s}"), Arguments(m))
  {
    FirstLine(" \"timestamp\": %lu, \"message_type\": %d," + " \"message_data\": %s}");
    SecondLine(" \"message_data\": %s}");
    ThirdLine();
    PrintParts(OPENING, TO_RECEPIENT, TO_TIMESTAMP, TO_KIND, TO_DATA, m);
  }

  lemma PrintParts(o: string, r: string, t: string, k: string, d: string, m: Message)
    requires o == OPENING && r == TO_RECEPIENT && t == TO_TIMESTAMP && k == TO_KIND && d == TO_DATA
    ensures Format(o + ("%s" + (r + ("%s" + (t + ("%lu" + (k + ("%d" + (d + ("%s" + "}"))))))))), Arguments(m))
         == Serialize(m)
  {
    FormatNames(o, r, t + ("%lu" + (k + ("%d" + (d + ("%s" + "}"))))), m);
    FormatNumbers(t, k, d, m);
  }

  // ----- decoding -----------------------------------------------------------------------

  predicate NotQuote(c: char) {
    c != '"'
  }

  predicate NotComma(c: char) {
    c != ','
  }

  predicate QuoteFree(m: Message) {
    '"' !in m.sender && '"' !in m.recepient
  }

  /** Removes the prefix `word`. */
  function Cut(s: string, word: string): (r: Option<string>)
    ensures r.Some? ==> s == word + r.value
  {
    if word <= s then Some(s[|word|..]) else None
  }

  function Split(s: string, p: char -> bool): (r: (string, string))
    ensures s == r.0 + r.1
    ensures forall i :: 0 <= i < |r.0| ==> p(r.0[i])
  {
    (s[..Span(s, p)], s[Span(s, p)..])
  }

  /** Reads `opening` and then a name, up to the next quote. */
  function ReadName(s: string, opening: string): Option<(string, string)> {
    var r :- Cut(s, opening);
    Some(Split(r, NotQuote))
  }

  function ReadTimestamp(s: string): Option<(TimeT, string)> {
    var (digits, rest) := Split(s, IsDigit);
    var u :- ReadDecimal(digits);
    if u < 2 * TWO_63 then Some((ToSigned(u), rest)) else None
  }

  function ReadKind(s: string): Option<(CInt, string)> {
    var (number, rest) := Split(s, NotComma);
    var kind :- ReadSignedDecimal(number);
    if -TWO_31 <= kind < TWO_31 then Some((kind, rest)) else None
  }

  /** The data are everything up to the last brace. */
  function ReadData(s: string): Option<string> {
    if s != "" && s[|s| - 1] == '}' then Some(s[..|s| - 1]) else None
  }

  /** Reads a text by the schema. */
  function Decode(s: string): (r: Option<Message>)
    ensures r.Some? ==> r.value.data.Some?
  {
    var (sender, r1) :- ReadName(s, OPENING);
    var (recepient, r2) :- ReadName(r1, TO_RECEPIENT);
    var r3 :- Cut(r2, TO_TIMESTAMP);
    var (timestamp, kind, data) :- DecodeFromTimestamp(r3);
    Some(Message(sender, recepient, timestamp, kind, Some(data)))
  }

  function DecodeFromTimestamp(s: string): Option<(TimeT, CInt, string)> {
    var (timestamp, r1) :- ReadTimestamp(s);
    var r2 :- Cut(r1, TO_KIND);
    var (kind, r3) :- ReadKind(r2);
    var r4 :- Cut(r3, TO_DATA);
    var data :- ReadData(r4);
    Some((timestamp, kind, data))
  }

  /** What a decoder can recover: NULL data is printed like the text `{}`. */
  function Printed(m: Message): Message {
    m.(data := Some(DataText(m)))
  }

  lemma CutPrefix(word: string, k: string)
    ensures Cut(word + k, word) == Some(k)
  {
    assert word <= word + k;
    assert (word + k)[|word|..] == k;
  }

  lemma SplitPrefix(a: string, k: string, p: char -> bool)
    requires forall i :: 0 <= i < |a| ==> p(a[i])
    requires k == "" || !p(k[0])
    ensures Split(a + k, p) == (a, k)
  {
    SpanExact(a, k, p);
  }

  lemma ReadNameInverse(opening: string, name: string, k: string)
    requires '"' !in name && k != "" && k[0] == '"'
    ensures ReadName(opening + (name + k), opening) == Some((name, k))
  {
    CutPrefix(opening, name + k);
    SplitPrefix(name, k, NotQuote);
  }

  lemma ReadNameSound(s: string, opening: string)
    ensures var r := ReadName(s, opening);
            r.Some? ==> s == opening + (r.value.0 + r.value.1) && '"' !in r.value.0
  {
  }

  lemma ReadTimestampInverse(t: TimeT, k: string)
    requires k != "" && !IsDigit(k[0])
    ensures ReadTimestamp(Decimal(ToUnsigned(t)) + k) == Some((t, k))
  {
    SplitPrefix(Decimal(ToUnsigned(t)), k, IsDigit);
    ReadDecimalInverse(ToUnsigned(t));
  }

  lemma ReadTimestampSound(s: string)
    ensures var r := ReadTimestamp(s);
            r.Some? ==> s == Decimal(ToUnsigned(r.value.0)) + r.value.1
  {
  }

  lemma SignedDecimalHasNoComma(i: int)
    ensures forall j :: 0 <= j < |SignedDecimal(i)| ==> NotComma(SignedDecimal(i)[j])
  {
    var d := Decimal(if i < 0 then -i else i);
    assert forall j :: 0 <= j < |d| ==> IsDigit(d[j]);
  }

  lemma ReadKindInverse(kind: CInt, k: string)
    requires k != "" && k[0] == ','
    ensures ReadKind(SignedDecimal(kind) + k) == Some((kind, k))
  {
    SignedDecimalHasNoComma(kind);
    SplitPrefix(SignedDecimal(kind), k, NotComma);
    ReadSignedDecimalInverse(kind);
  }

  lemma ReadKindSound(s: string)
    ensures var r := ReadKind(s); r.Some? ==> s == SignedDecimal(r.value.0) + r.value.1
  {
  }

  lemma ReadDataSound(s: string)
    ensures var r := ReadData(s); r.Some? ==> s == r.value + "}"
  {
  }

  lemma ReadDataInverse(data: string)
    ensures ReadData(data + "}") == Some(data)
  {
  }

  lemma DecodeFromTimestampInverse(m: Message)
    ensures DecodeFromTimestamp(FromTimestamp(m)) == Some((m.timestamp, m.kind, DataText(m)))
  {
    var r4 := DataText(m) + "}";
    var r3 := TO_DATA + r4;
    var r2 := SignedDecimal(m.kind) + r3;
    ReadTimestampInverse(m.timestamp, TO_KIND + r2);
    CutPrefix(TO_KIND, r2);
    ReadKindInverse(m.kind, r3);
    CutPrefix(TO_DATA, r4);
    ReadDataInverse(DataText(m));
  }

  /** Decoding undoes printing for names without a quote, whatever the data are. */
  lemma DecodeInvertsSerialize(m: Message)
    requires QuoteFree(m)
    ensures Decode(Serialize(m)) == Some(Printed(m))
  {
    var r3 := TO_TIMESTAMP + FromTimestamp(m);
    var r2 := m.recepient + r3;
    ReadNameInverse(OPENING, m.sender, TO_RECEPIENT + r2);
    ReadNameInverse(TO_RECEPIENT, m.recepient, r3);
    CutPrefix(TO_TIMESTAMP, FromTimestamp(m));
    DecodeFromTimestampInverse(m);
  }

  lemma DecodeFromTimestampSound(s: string)
    ensures var r := DecodeFromTimestamp(s);
            r.Some? ==>
              var (timestamp, kind, data) := r.value;
              s == Decimal(ToUnsigned(timestamp))
                   + (TO_KIND + (SignedDecimal(kind) + (TO_DATA + (data + "}"))))
  {
    if DecodeFromTimestamp(s).Some? {
      var r1 := ReadTimestamp(s).value.1;
      var r2 := Cut(r1, TO_KIND).value;
      var r3 := ReadKind(r2).value.1;
      var r4 := Cut(r3, TO_DATA).value;
      ReadTimestampSound(s);
      ReadKindSound(r2);
      ReadDataSound(r4);
    }
  }

  /** Printing undoes decoding on every text the decoder accepts. */
  lemma SerializeInvertsDecode(s: string)
    ensures var r := Decode(s);
            r.Some? ==> QuoteFree(r.value) && Printed(r.value) == r.value && Serialize(r.value) == s
  {
    if Decode(s).Some? {
      var r1 := ReadName(s, OPENING).value.1;
      var r2 := ReadName(r1, TO_RECEPIENT).value.1;
      var r3 := Cut(r2, TO_TIMESTAMP).value;
      ReadNameSound(s, OPENING);
      ReadNameSound(r1, TO_RECEPIENT);
      DecodeFromTimestampSound(r3);
    }
  }

  /** The record is recovered exactly when neither name has a quote. */
  lemma DecodableExactly(m: Message)
    ensures Decode(Serialize(m)) == Some(Printed(m)) <==> QuoteFree(m)
  {
    if Decode(Serialize(m)) == Some(Printed(m)) {
      SerializeInvertsDecode(Serialize(m));
    } else if QuoteFree(m) {
      DecodeInvertsSerialize(m);
    }
  }

  /** The decoder accepts exactly the texts printed for messages with quote-free names. */
  lemma DecoderAcceptsExactlyOutputs(s: string)
    ensures Decode(s).Some? <==> exists m :: QuoteFree(m) && Serialize(m) == s
  {
    if Decode(s).Some? {
      SerializeInvertsDecode(s);
    }
    forall m | QuoteFree(m) && Serialize(m) == s
      ensures Decode(s).Some?
    {
      DecodeInvertsSerialize(m);
    }
  }

  /** With quote-free names, messages that print alike are alike up to NULL data. */
  lemma SerializeInjective(m: Message, n: Message)
    requires QuoteFree(m) && QuoteFree(n)
    ensures Serialize(m) == Serialize(n) <==> Printed(m) == Printed(n)
  {
    if Serialize(m) == Serialize(n) {
      DecodeInvertsSerialize(m);
      DecodeInvertsSerialize(n);
    }
  }

  /** A quote in a name breaks this: two different messages with one text. */
  lemma QuotedNamesCollide(t: TimeT, kind: CInt, data: Option<string>)
    ensures var m := Message("a" + TO_RECEPIENT + "b", "c", t, kind, data);
            var n := Message("a", "b" + TO_RECEPIENT + "c", t, kind, data);
            m != n && Serialize(m) == Serialize(n)
  {
    var m := Message("a" + TO_RECEPIENT + "b", "c", t, kind, data);
    var n := Message("a", "b" + TO_RECEPIENT + "c", t, kind, data);
    assert |m.sender| != |n.sender|;
    var rest := TO_TIMESTAMP + FromTimestamp(m);
    FiveParts("a", TO_RECEPIENT, "b", "c", rest);
  }

  lemma FiveParts(a: string, w: string, b: string, c: string, k: string)
    ensures (a + w + b) + (w + (c + k)) == a + (w + ((b + w + c) + k))
  {
  }

  // ----- nesting ------------------------------------------------------------------------

  /** The text of `layers[0]` carrying the text of `layers[1]` carrying ... `core`. */
  function Nest(layers: seq<Message>, core: string): string {
    if layers == [] then core
    else Serialize(layers[0].(data := Some(Nest(layers[1..], core))))
  }

  /** Decodes `n` layers from the outside in. */
  function Peel(s: string, n: nat): Option<(seq<Message>, string)>
    decreases n
  {
    if n == 0 then Some(([], s))
    else
      var m :- Decode(s);
      var (inner, core) :- Peel(m.data.value, n - 1);
      Some(([m] + inner, core))
  }

  predicate SameEnvelope(m: Message, n: Message) {
    m.(data := None) == n.(data := None)
  }

  /** `p` holds every envelope of `layers`, in order, and the core. */
  ghost predicate Recovers(p: Option<(seq<Message>, string)>, layers: seq<Message>, core: string) {
    && p.Some? && p.value.1 == core && |p.value.0| == |layers|
    && forall i :: 0 <= i < |layers| ==> SameEnvelope(p.value.0[i], layers[i])
  }

  /** Peeling as many layers as were wrapped gives back every envelope and the core. */
  lemma {:induction false} PeelInvertsNest(layers: seq<Message>, core: string)
    requires forall m :: m in layers ==> QuoteFree(m)
    ensures Recovers(Peel(Nest(layers, core), |layers|), layers, core)
  {
    if layers != [] {
      var inner := Nest(layers[1..], core);
      var m := layers[0].(data := Some(inner));
      assert layers[0] in layers;
      DecodeInvertsSerialize(m);
      PeelInvertsNest(layers[1..], core);
      RecoversLayer(m, Peel(inner, |layers| - 1), layers, core);
    }
  }

  lemma RecoversLayer(m: Message, p: Option<(seq<Message>, string)>, layers: seq<Message>, core: string)
    requires layers != [] && SameEnvelope(m, layers[0]) && Recovers(p, layers[1..], core)
    ensures Recovers(Some(([m] + p.value.0, p.value.1)), layers, core)
  {
    forall i | 0 < i < |layers|
      ensures SameEnvelope(([m] + p.value.0)[i], layers[i])
    {
      assert layers[1..][i - 1] == layers[i];
    }
  }

  // ----- the output as JSON -------------------------------------------------------------

  const SENDER := Label("", "sender", "")
  const RECEPIENT := Label(" ", "recepient", "")
  const TIMESTAMP := Label(" ", "timestamp", "")
  const KIND := Label(" ", "message_type", "")
  const DATA := Label(" ", "message_data", "")

  /** The derivation tree the schema intends, with `d` in the place of the data. */
  function SchemaTree(m: Message, d: Element): Element {
    MessageTree(m, LastMember(Member(DATA, d)))
  }

  /** The tree of the first four members, followed by `last`. */
  function MessageTree(m: Message, last: Members): Element {
    Element("", Object(SchemaMembers(m, last)), "")
  }

  function SchemaMembers(m: Message, last: Members): Members {
    MoreMembers(Member(SENDER, Element(" ", String(m.sender), "")),
                MoreMembers(Member(RECEPIENT, Element("", String(m.recepient), "")), NumberMembers(m, last)))
  }

  function NumberMembers(m: Message, last: Members): Members {
    MoreMembers(Member(TIMESTAMP, Element(" ", Number(Decimal(ToUnsigned(m.timestamp))), "")),
                MoreMembers(Member(KIND, Element(" ", Number(SignedDecimal(m.kind)), "")), last))
  }

  /** The output is an object of exactly the five schema members, in order, with the
      message's own names and numbers, and with the data as the value of the last. */
  ghost predicate ParsesAsSchema(m: Message) {
    exists d: Element ::
      ParseJson(Serialize(m)) == Some(SchemaTree(m, d)) && Write(d, "") == " " + DataText(m)
  }

  /** No quote, backslash or control character. */
  predicate Plain(s: string) {
    forall i :: 0 <= i < |s| ==> s[i] >= ' ' && s[i] != '"' && s[i] != '\\'
  }

  lemma {:induction false} PlainIsBody(s: string)
    requires Plain(s)
    ensures IsBody(s)
  {
    if s != "" {
      PlainIsBody(s[1..]);
    }
  }

  lemma LabelText(l: Label, k: string)
    ensures WriteLabel(l, k) == (l.before + "\"" + l.name + "\"" + l.between + ":") + k
  {
  }

  lemma OpeningText(k: string)
    ensures "{" + WriteLabel(SENDER, " " + ("\"" + k)) == OPENING + k
  {
    LabelText(SENDER, " " + ("\"" + k));
  }

  lemma RecepientText(k: string)
    ensures "\"" + ("," + WriteLabel(RECEPIENT, "\"" + k)) == TO_RECEPIENT + k
  {
    LabelText(RECEPIENT, "\"" + k);
  }

  lemma TimestampText(k: string)
    ensures "\"" + ("," + WriteLabel(TIMESTAMP, " " + k)) == TO_TIMESTAMP + k
  {
    LabelText(TIMESTAMP, " " + k);
  }

  lemma KindText(k: string)
    ensures "," + WriteLabel(KIND, " " + k) == TO_KIND + k
  {
    LabelText(KIND, " " + k);
  }

  lemma DataLabelText(k: string)
    ensures "," + WriteLabel(DATA, " " + k) == TO_DATA + k
  {
    LabelText(DATA, " " + k);
  }

  lemma NumberText(t: string, k: string)
    ensures Write(Element(" ", Number(t), ""), k) == " " + (t + k)
  {
    assert "" + k == k;
  }

  lemma StringText(gap: string, raw: string, k: string)
    ensures Write(Element(gap, String(raw), ""), k) == gap + ("\"" + (raw + ("\"" + k)))
  {
    assert "" + k == k;
  }

  lemma NumberMembersText(m: Message, last: Members)
    requires "," + WriteMembers(last, "}") == TO_DATA + (DataText(m) + "}")
    ensures "\"" + ("," + WriteMembers(NumberMembers(m, last), "}")) == TO_TIMESTAMP + FromTimestamp(m)
  {
    var u, i := Decimal(ToUnsigned(m.timestamp)), SignedDecimal(m.kind);
    var k5 := "," + WriteMembers(last, "}");
    var kind := Member(KIND, Element(" ", Number(i), ""));
    NumberText(i, k5);
    assert WriteMember(kind, k5) == WriteLabel(KIND, " " + (i + k5));
    KindText(i + k5);
    var k4 := "," + WriteMembers(MoreMembers(kind, last), "}");
    assert k4 == TO_KIND + (i + k5);
    var timestamp := Member(TIMESTAMP, Element(" ", Number(u), ""));
    NumberText(u, k4);
    assert WriteMember(timestamp, k4) == WriteLabel(TIMESTAMP, " " + (u + k4));
    TimestampText(u + k4);
  }

  lemma MessageTreeText(m: Message, last: Members)
    requires "," + WriteMembers(last, "}") == TO_DATA + (DataText(m) + "}")
    ensures Write(MessageTree(m, last), "") == Serialize(m)
  {
    NumberMembersText(m, last);
    var numbers := NumberMembers(m, last);
    var k3 := "," + WriteMembers(numbers, "}");
    var recepient := Member(RECEPIENT, Element("", String(m.recepient), ""));
    var r2 := m.recepient + (TO_TIMESTAMP + FromTimestamp(m));
    StringText("", m.recepient, k3);
    assert "" + ("\"" + r2) == "\"" + r2;
    assert WriteMember(recepient, k3) == WriteLabel(RECEPIENT, "\"" + r2);
    RecepientText(r2);
    var k2 := "," + WriteMembers(MoreMembers(recepient, numbers), "}");
    var sender := Member(SENDER, Element(" ", String(m.sender), ""));
    var r1 := m.sender + (TO_RECEPIENT + r2);
    StringText(" ", m.sender, k2);
    assert WriteMember(sender, k2) == WriteLabel(SENDER, " " + ("\"" + r1));
    OpeningText(r1);
    assert "}" + ("" + "") == "}";
    assert WriteMembers(SchemaMembers(m, last), "}") == WriteMember(sender, k2);
  }

  lemma MemberWellFormed(l: Label, gap: string, v: Value)
    requires WellFormedLabel(l) && IsGap(gap)
    ensures WellFormedMember(Member(l, Element(gap, v, ""))) <==> WellFormedValue(v)
  {
  }

  lemma ConsWellFormed(l: Label, gap: string, v: Value, others: Members)
    requires IsSchemaLabel(l) && IsGap(gap)
    ensures WellFormedMembers(MoreMembers(Member(l, Element(gap, v, "")), others))
       <==> WellFormedValue(v) && WellFormedMembers(others)
  {
    SchemaLabelWellFormed(l);
    MemberWellFormed(l, gap, v);
  }

  predicate IsSchemaLabel(l: Label) {
    l == SENDER || l == RECEPIENT || l == TIMESTAMP || l == KIND || l == DATA
  }

  lemma PlainNames()
    ensures Plain("sender") && Plain("recepient") && Plain("timestamp")
    ensures Plain("message_type") && Plain("message_data")
  {
  }

  lemma SchemaLabelWellFormed(l: Label)
    requires IsSchemaLabel(l)
    ensures WellFormedLabel(l)
  {
    PlainNames();
    PlainIsBody(l.name);
  }

  /** The tree is well formed exactly when the names are bodies and the rest is well formed. */
  lemma MessageTreeWellFormed(m: Message, last: Members)
    ensures WellFormed(MessageTree(m, last)) <==> IsBody(m.sender) && IsBody(m.recepient) && WellFormedMembers(last)
  {
    var ms := SchemaMembers(m, last);
    ObjectWellFormed(ms);
    NumbersWellFormed(m, last);
    NamesWellFormed(m.sender, m.recepient, NumberMembers(m, last), ms);
  }

  lemma ObjectWellFormed(ms: Members)
    ensures WellFormed(Element("", Object(ms), "")) <==> WellFormedMembers(ms)
  {
  }

  lemma NumbersWellFormed(m: Message, last: Members)
    ensures WellFormedMembers(NumberMembers(m, last)) <==> WellFormedMembers(last)
  {
    var u, i := Decimal(ToUnsigned(m.timestamp)), SignedDecimal(m.kind);
    DecimalIsNumber(ToUnsigned(m.timestamp));
    SignedDecimalIsNumber(m.kind);
    ConsWellFormed(KIND, " ", Number(i), last);
    ConsWellFormed(TIMESTAMP, " ", Number(u), NumberMembers(m, last).others);
  }

  lemma NamesWellFormed(sender: string, recepient: string, numbers: Members, ms: Members)
    requires ms == MoreMembers(Member(SENDER, Element(" ", String(sender), "")),
                               MoreMembers(Member(RECEPIENT, Element("", String(recepient), "")), numbers))
    ensures WellFormedMembers(ms) <==> IsBody(sender) && IsBody(recepient) && WellFormedMembers(numbers)
  {
    ConsWellFormed(RECEPIENT, "", String(recepient), numbers);
    ConsWellFormed(SENDER, " ", String(sender), ms.others);
    StringWellFormed(sender);
    StringWellFormed(recepient);
  }

  lemma StringWellFormed(raw: string)
    ensures WellFormedValue(String(raw)) <==> IsBody(raw)
  {
  }

  /** The element that data become after the space of the schema. */
  function Spaced(e: Element): Element {
    e.(before := " " + e.before)
  }

  lemma DataInPlace(m: Message, d: Element)
    requires Write(d, "") == " " + DataText(m)
    ensures "," + WriteMembers(LastMember(Member(DATA, d)), "}") == TO_DATA + (DataText(m) + "}")
  {
    WriteAppends(d, "", "}");
    assert "" + "}" == "}";
    Assoc(" ", DataText(m), "}");
    var r5 := DataText(m) + "}";
    assert WriteMember(Member(DATA, d), "}") == WriteLabel(DATA, " " + r5);
    DataLabelText(r5);
  }

  /** JSON names and JSON data make the output the JSON object of the schema, with the
      value of the data kept. */
  lemma JsonInJsonOut(m: Message)
    requires IsBody(m.sender) && IsBody(m.recepient) && IsJson(DataText(m))
    ensures ParseJson(Serialize(m)) == Some(SchemaTree(m, Spaced(ParseJson(DataText(m)).value)))
    ensures ParsesAsSchema(m)
  {
    ParserIsSound(DataText(m));
    var e := ParseJson(DataText(m)).value;
    var d := Spaced(e);
    var last := LastMember(Member(DATA, d));
    Assoc(" ", e.before, WriteValue(e.value, e.after + ""));
    DataInPlace(m, d);
    MessageTreeText(m, last);
    DataWellFormed(d);
    MessageTreeWellFormed(m, last);
    ParserIsComplete(SchemaTree(m, d));
  }

  lemma DataWellFormed(d: Element)
    ensures WellFormedMembers(LastMember(Member(DATA, d))) <==> WellFormed(d)
  {
    SchemaLabelWellFormed(DATA);
    assert WellFormedMember(Member(DATA, d)) <==> WellFormed(d);
  }

  lemma Unspace(d: Element, text: string)
    requires WellFormed(d) && Write(d, "") == " " + text
    ensures IsJson(text)
  {
    var tail := WriteValue(d.value, d.after + "");
    ValueStart(d.value, d.after + "");
    assert d.before != "" by {
      assert (d.before + tail)[0] == ' ';
    }
    var e := d.(before := d.before[1..]);
    assert d.before == " " + e.before;
    Assoc(" ", e.before, tail);
    assert (" " + Write(e, ""))[1..] == Write(e, "");
    assert (" " + text)[1..] == text;
    ParserIsComplete(e);
  }

  /** Nothing else does: the output is the object of the schema only for JSON names and data. */
  lemma SchemaNeedsJson(m: Message)
    requires ParsesAsSchema(m)
    ensures IsBody(m.sender) && IsBody(m.recepient) && IsJson(DataText(m))
  {
    var d :| ParseJson(Serialize(m)) == Some(SchemaTree(m, d)) && Write(d, "") == " " + DataText(m);
    ParserIsSound(Serialize(m));
    MessageTreeWellFormed(m, LastMember(Member(DATA, d)));
    DataWellFormed(d);
    Unspace(d, DataText(m));
  }

  /** The output means what the schema says exactly when both names are JSON string bodies
      and the data are NULL or a JSON text. */
  lemma SchemaExactly(m: Message)
    ensures ParsesAsSchema(m) <==> IsBody(m.sender) && IsBody(m.recepient) && (m.data.None? || IsJson(m.data.value))
  {
    if m.data.None? {
      EmptyObjectIsJson();
    }
    if ParsesAsSchema(m) {
      SchemaNeedsJson(m);
    } else if IsBody(m.sender) && IsBody(m.recepient) && IsJson(DataText(m)) {
      JsonInJsonOut(m);
    }
  }

  lemma EmptyObjectIsJson()
    ensures IsJson("{}")
  {
    var e := Element("", EmptyObject(""), "");
    assert Write(e, "") == "{}";
    ParserIsComplete(e);
  }

  /** Being JSON at all is weaker: data that are not JSON can be spliced into JSON. */
  lemma SplicedDataStillParse(t: TimeT, kind: CInt)
    ensures var m := Message("a", "b", t, kind, Some("1,\"x\":2"));
            !IsJson(DataText(m)) && IsJson(Serialize(m)) && !ParsesAsSchema(m)
  {
    var m := Message("a", "b", t, kind, Some("1,\"x\":2"));
    var x := Label("", "x", "");
    var one, two := Element(" ", Number("1"), ""), Element("", Number("2"), "");
    var tail := LastMember(Member(x, two));
    var last := MoreMembers(Member(DATA, one), tail);
    SplicedMembersText(x, one, two);
    assert "1,\"x\":2" + "}" == "1,\"x\":2}";
    MessageTreeText(m, last);
    PlainIsBody("a");
    PlainIsBody("b");
    PlainIsBody("x");
    DecimalIsNumber(1);
    DecimalIsNumber(2);
    MemberWellFormed(x, "", Number("2"));
    assert WellFormedMembers(tail);
    ConsWellFormed(DATA, " ", Number("1"), tail);
    MessageTreeWellFormed(m, last);
    ParserIsComplete(MessageTree(m, last));
    SplicedDataIsNotJson(DataText(m));
    SchemaExactly(m);
  }

  lemma SplicedMembersText(x: Label, one: Element, two: Element)
    requires x == Label("", "x", "")
    requires one == Element(" ", Number("1"), "") && two == Element("", Number("2"), "")
    ensures "," + WriteMembers(MoreMembers(Member(DATA, one), LastMember(Member(x, two))), "}")
         == TO_DATA + "1,\"x\":2}"
  {
    LabelText(x, "2}");
    assert Write(two, "}") == "2}";
    assert WriteMember(Member(x, two), "}") == "\"x\":2}";
    var k := ",\"x\":2}";
    assert "," + WriteMembers(LastMember(Member(x, two)), "}") == k;
    NumberText("1", k);
    DataLabelText("1" + k);
    assert WriteMember(Member(DATA, one), k) == WriteLabel(DATA, " " + ("1" + k));
    assert "1" + k == "1,\"x\":2}";
  }

  lemma SplicedDataIsNotJson(s: string)
    requires s == "1,\"x\":2"
    ensures !IsJson(s)
  {
    var e, k := Element("", Number("1"), ""), s[1..];
    DecimalIsNumber(1);
    TrailingTextIsNotJson(e, k);
    assert Write(e, k) == s;
  }

  lemma TrailingTextIsNotJson(e: Element, k: string)
    requires WellFormed(e) && EndsElement(k) && k != ""
    ensures !IsJson(Write(e, k))
  {
    ElementIsComplete(e, k);
  }

  /** Messages nested to any depth print as JSON when their names and the core are JSON. */
  lemma {:induction false} NestIsJson(layers: seq<Message>, core: string)
    requires forall m :: m in layers ==> IsBody(m.sender) && IsBody(m.recepient)
    requires IsJson(core)
    ensures IsJson(Nest(layers, core))
    ensures layers != [] ==> ParsesAsSchema(layers[0].(data := Some(Nest(layers[1..], core))))
  {
    if layers != [] {
      NestIsJson(layers[1..], core);
      JsonInJsonOut(layers[0].(data := Some(Nest(layers[1..], core))));
    }
  }
}
