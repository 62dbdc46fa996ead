/**
 What the members around the nine keys may hold.

 The scan looks at every string token, so a string that equals one of the nine keys counts
 as that key wherever it stands. `QuietExactly` says which values other members may have.
 */
module Companions {
  import opened Common
  import opened Text
  import opened Json
  import opened Numbers
  import opened Tokens
  import opened Ticker
  import opened TickerTree

  import Message



  // ----- which keys a text binds --------------------------------------------------------

  /** Memory that holds the same number in every field. */
  function Filled(d: Double, time: CInt): Ticker {
    Ticker("", d, d, d, d, d, d, d, d, time)
  }

  lemma FilledGet(d: Double, time: CInt, pair: string, f: Field)
    ensures Filled(d, time).(pair := pair).Get(f) == d && Filled(d, time).Get(f) == d
  {
  }

  /** A ticker text has a key for a number exactly when one of its members has that name. */
  lemma BoundFieldExactly(jsmn: Tokenizer, gaps: Layout, pair: string, inner: Members, f: Field)
    requires AgreesWithGrammar(jsmn) && WellFormed(TickerElement(gaps, pair, inner)) && Tame(inner)
    ensures BindsKey(jsmn, TickerText(gaps, pair, inner), Name(f)) <==> Lookup(Bindings(inner), Name(f)).Some?
  {
    var text, bs := TickerText(gaps, pair, inner), Bindings(inner);
    var j1, j2 := Filled(ZERO, 0), Filled(NotANumber, 0);
    FilledGet(ZERO, 0, pair, f);
    FilledGet(NotANumber, 0, pair, f);
    ParseBindsMembers(jsmn, gaps, pair, inner, j1);
    ParseBindsMembers(jsmn, gaps, pair, inner, j2);
    BindAllLookup(bs, j1.(pair := pair), f);
    BindAllLookup(bs, j2.(pair := pair), f);
    if BindsKey(jsmn, text, Name(f)) {
      FieldFromText(jsmn, text, j1, j2, f);
    } else {
      FieldFromMemory(jsmn, text, j1, f);
      FieldFromMemory(jsmn, text, j2, f);
    }
  }

  /** And the same for the time. */
  lemma BoundTimeExactly(jsmn: Tokenizer, gaps: Layout, pair: string, inner: Members)
    requires AgreesWithGrammar(jsmn) && WellFormed(TickerElement(gaps, pair, inner)) && Tame(inner)
    ensures BindsKey(jsmn, TickerText(gaps, pair, inner), UPDATED) <==> Lookup(Bindings(inner), UPDATED).Some?
  {
    var text, bs := TickerText(gaps, pair, inner), Bindings(inner);
    var j1, j2 := Filled(ZERO, 0), Filled(ZERO, 1);
    ParseBindsMembers(jsmn, gaps, pair, inner, j1);
    ParseBindsMembers(jsmn, gaps, pair, inner, j2);
    BindAllUpdated(bs, j1.(pair := pair));
    BindAllUpdated(bs, j2.(pair := pair));
    TimeFromText(jsmn, text, j1, j2);
    TimeFromText(jsmn, text, j2, j1);
  }

  // ----- which values do no harm --------------------------------------------------------

  /** The members with `m` put in before the `k`-th of them, or at the end. */
  function Insert(ms: Members, m: Member, k: nat): Members {
    if k == 0 then MoreMembers(m, ms)
    else
      match ms
      case LastMember(x) => MoreMembers(x, LastMember(m))
      case MoreMembers(x, others) => MoreMembers(x, Insert(others, m, k - 1))
  }

  lemma {:induction false} InsertUnknown(ms: Members, m: Member, k: nat)
    requires WellFormedMembers(ms) && Tame(ms) && WellFormedMember(m)
    requires !IsKeyName(m.tag.name) && Quiet(m.element.value)
    decreases k
    ensures WellFormedMembers(Insert(ms, m, k)) && Tame(Insert(ms, m, k))
    ensures Known(Bindings(Insert(ms, m, k))) == Known(Bindings(ms))
  {
    KnownCons(BindingOf(ms.member), if ms.LastMember? then [] else Bindings(ms.others));
    if k == 0 {
      KnownCons(BindingOf(m), Bindings(ms));
    } else if ms.MoreMembers? {
      InsertUnknown(ms.others, m, k - 1);
      KnownCons(BindingOf(ms.member), Bindings(Insert(ms.others, m, k - 1)));
    } else {
      KnownCons(BindingOf(ms.member), Bindings(LastMember(m)));
      KnownCons(BindingOf(m), []);
    }
  }

  lemma KnownCons(b: Binding, bs: seq<Binding>)
    ensures Known([b] + bs) == (if IsKeyName(b.0) then [b] else []) + Known(bs)
  {
    assert ([b] + bs)[1..] == bs;
  }

  lemma TickerWellFormed(gaps: Layout, pair: string, ms: Members, ms': Members)
    requires WellFormed(TickerElement(gaps, pair, ms)) && WellFormedMembers(ms')
    ensures WellFormed(TickerElement(gaps, pair, ms'))
  {
    var v, v' := TickerElement(gaps, pair, ms).value, TickerElement(gaps, pair, ms').value;
    assert WellFormedValue(v) && WellFormedMembers(v.members) && WellFormedMember(v.members.member);
    assert WellFormed(v.members.member.element);
    assert WellFormedValue(Object(ms'));
    assert WellFormed(InnerElement(gaps, ms')) && WellFormedMember(v'.members.member);
    assert WellFormedMembers(v'.members) && WellFormedValue(v');
  }

  /** A member that may be put into any ticker text whose own values are quiet. */
  predicate MayJoin(gaps: Layout, pair: string, ms: Members, m: Member) {
    WellFormed(TickerElement(gaps, pair, ms)) && Tame(ms) && WellFormedMember(m) && !IsKeyName(m.tag.name)
  }

  /** Under an unknown name the value changes no parse, wherever it is put. */
  ghost predicate NeverMatters(jsmn: Tokenizer, v: Value) {
    forall gaps, pair, ms, m, k, junk :: MayJoin(gaps, pair, ms, m) && m.element.value == v ==>
      ParseTicker(jsmn, TickerText(gaps, pair, Insert(ms, m, k)), junk)
      == ParseTicker(jsmn, TickerText(gaps, pair, ms), junk)
  }

  lemma QuietDoesNotMatter(
    jsmn: Tokenizer, gaps: Layout, pair: string, ms: Members, m: Member, k: nat, junk: Ticker)
    requires AgreesWithGrammar(jsmn) && MayJoin(gaps, pair, ms, m) && Quiet(m.element.value)
    ensures ParseTicker(jsmn, TickerText(gaps, pair, Insert(ms, m, k)), junk)
         == ParseTicker(jsmn, TickerText(gaps, pair, ms), junk)
  {
    var t := junk.(pair := pair);
    InnerWellFormed(gaps, pair, ms);
    InsertUnknown(ms, m, k);
    TickerWellFormed(gaps, pair, ms, Insert(ms, m, k));
    ParseBindsMembers(jsmn, gaps, pair, ms, junk);
    ParseBindsMembers(jsmn, gaps, pair, Insert(ms, m, k), junk);
    UnknownIgnored(Bindings(ms), t);
    UnknownIgnored(Bindings(Insert(ms, m, k)), t);
  }

  const NO_GAPS := Layout("", "", "", "", "", "")

  /** A member without spacing. */
  function Bare(name: string, v: Value): Member {
    Member(Label("", name, ""), Element("", v, ""))
  }

  lemma BareWellFormed(name: string, v: Value)
    requires Message.Plain(name) && WellFormedValue(v)
    ensures WellFormedMember(Bare(name, v))
  {
    Message.PlainIsBody(name);
  }

  lemma BareTickerWellFormed(pair: string, ms: Members)
    requires Message.Plain(pair) && WellFormedMembers(ms)
    ensures WellFormed(TickerElement(NO_GAPS, pair, ms))
  {
    BareWellFormed(pair, Object(ms));
    var m := Member(PairLabel(NO_GAPS, pair), InnerElement(NO_GAPS, ms));
    assert m == Bare(pair, Object(ms));
    assert WellFormedMembers(LastMember(m)) && WellFormedValue(Object(LastMember(m)));
  }

  /** A text whose members hold a key somewhere, and that parses, binds that key. */
  lemma LoudBinds(jsmn: Tokenizer, gaps: Layout, pair: string, ms: Members) returns (key: CString)
    requires AgreesWithGrammar(jsmn) && WellFormed(TickerElement(gaps, pair, ms)) && !QuietMembers(ms)
    ensures IsKeyName(key) && BindsKey(jsmn, TickerText(gaps, pair, ms), key)
  {
    var json, toks := TickerText(gaps, pair, ms), ElementTokens(TickerElement(gaps, pair, ms), 0);
    Tokenises(jsmn, TickerElement(gaps, pair, ms));
    TickerTokens(gaps, pair, ms);
    InnerPlaced(gaps, pair, ms);
    MembersFit(json, ms, InnerStart(gaps, pair), AfterInner(gaps));
    var i :| 0 <= i < |toks[3..]| && IsKey(json, toks[3..][i]);
    assert toks[3..][i] == toks[3 + i];
    key := KeyOf(json, toks[3 + i]);
    assert EqualJsonKey(json, toks[3 + i], key);
  }

  ghost function KeyOf(json: string, t: Token): (key: CString)
    requires Inside(json, t) && IsKey(json, t)
    ensures IsKeyName(key) && EqualJsonKey(json, t, key)
  {
    if Slice(json, t) == UPDATED then UPDATED
    else
      var f: Field :| Slice(json, t) == Name(f);
      Name(f)
  }

  lemma ShortNamesAreNoKeys()
    ensures !IsKeyName("x") && !IsKeyName("y") && !IsKeyName("note") && Message.Plain("x") && Message.Plain("y")
    ensures Message.Plain("p") && Message.Plain("note")
  {
    assert |UPDATED| == 7;
    forall f: Field
      ensures Name(f) != "x" && Name(f) != "y" && Name(f) != "note"
    {
      NameIsLong(f);
    }
  }

  lemma NameIsLong(f: Field)
    ensures |Name(f)| > 2 && Name(f) != "note"
  {
    match f
    case HIGH => assert Name(f)[0] == 'h';
    case LAST => assert Name(f)[0] == 'l';
    case SELL => assert Name(f)[0] == 's';
    case _ =>
  }

  /** The smallest inner object, and what it is with another member behind. */
  function One(): Members {
    LastMember(Bare("y", Number("1")))
  }

  lemma OneIsNumber()
    ensures IsNumber("1")
  {
    DecimalIsNumber(1);
    assert Decimal(1) == "1";
  }

  lemma OneWellFormed()
    ensures WellFormedMember(Bare("y", Number("1"))) && WellFormed(TickerElement(NO_GAPS, "p", One()))
  {
    ShortNamesAreNoKeys();
    OneIsNumber();
    BareWellFormed("y", Number("1"));
    BareTickerWellFormed("p", One());
  }

  lemma OneMayBeJoined(v: Value)
    requires WellFormedValue(v)
    ensures MayJoin(NO_GAPS, "p", One(), Bare("x", v))
  {
    ShortNamesAreNoKeys();
    OneWellFormed();
    BareWellFormed("x", v);
  }

  function Two(v: Value): Members {
    MoreMembers(Bare("y", Number("1")), LastMember(Bare("x", v)))
  }

  lemma TwoWellFormed(v: Value)
    requires WellFormedValue(v)
    ensures WellFormed(TickerElement(NO_GAPS, "p", Two(v)))
  {
    ShortNamesAreNoKeys();
    OneWellFormed();
    BareWellFormed("x", v);
    assert WellFormedMembers(LastMember(Bare("x", v)));
    BareTickerWellFormed("p", Two(v));
  }

  lemma TwoIsLoud(v: Value)
    requires !Quiet(v)
    ensures !QuietMembers(Two(v))
  {
    var last := LastMember(Bare("x", v));
    assert !QuietMember(last.member);
    assert !QuietMembers(last);
  }

  /** Over `One` the memory is the result. */
  lemma OneKeepsMemory(jsmn: Tokenizer, junk: Ticker)
    requires AgreesWithGrammar(jsmn)
    ensures ParseTicker(jsmn, TickerText(NO_GAPS, "p", One()), junk) == Extracted(junk.(pair := "p"))
  {
    ShortNamesAreNoKeys();
    OneWellFormed();
    ParseBindsMembers(jsmn, NO_GAPS, "p", One(), junk);
    UnknownIgnored(Bindings(One()), junk.(pair := "p"));
    assert Bindings(One()) == [("y", "1")];
    assert Known([("y", "1")][1..]) == [];
  }

  /** A text that binds a key forgets some memory. */
  lemma BoundForgets(jsmn: Tokenizer, text: string, key: CString)
    requires IsKeyName(key) && BindsKey(jsmn, text, key)
    ensures exists junk :: ParseTicker(jsmn, text, junk) != Extracted(junk.(pair := "p"))
  {
    if key == UPDATED {
      var j1, j2 := Filled(ZERO, 0), Filled(ZERO, 1);
      if ParseTicker(jsmn, text, j1) == Extracted(j1.(pair := "p"))
         && ParseTicker(jsmn, text, j2) == Extracted(j2.(pair := "p")) {
        TimeFromText(jsmn, text, j1, j2);
      }
    } else {
      var f: Field :| key == Name(f);
      var j1, j2 := Filled(ZERO, 0), Filled(NotANumber, 0);
      FilledGet(ZERO, 0, "p", f);
      FilledGet(NotANumber, 0, "p", f);
      if ParseTicker(jsmn, text, j1) == Extracted(j1.(pair := "p"))
         && ParseTicker(jsmn, text, j2) == Extracted(j2.(pair := "p")) {
        FieldFromText(jsmn, text, j1, j2, f);
      }
    }
  }

  lemma LoudMatters(jsmn: Tokenizer, v: Value)
    requires AgreesWithGrammar(jsmn) && WellFormedValue(v) && !Quiet(v)
    ensures !NeverMatters(jsmn, v)
  {
    var m := Bare("x", v);
    OneMayBeJoined(v);
    TwoWellFormed(v);
    TwoIsLoud(v);
    var text := TickerText(NO_GAPS, "p", Two(v));
    var key := LoudBinds(jsmn, NO_GAPS, "p", Two(v));
    BoundForgets(jsmn, text, key);
    var junk :| ParseTicker(jsmn, text, junk) != Extracted(junk.(pair := "p"));
    assert Insert(One(), m, 1) == Two(v);
    OneKeepsMemory(jsmn, junk);
    assert MayJoin(NO_GAPS, "p", One(), m) && m.element.value == v;
  }

  /** A value under an unknown name leaves every ticker text's parse alone exactly when no
      string in it is one of the nine keys. */
  lemma QuietExactly(jsmn: Tokenizer, v: Value)
    requires AgreesWithGrammar(jsmn) && WellFormedValue(v)
    ensures NeverMatters(jsmn, v) <==> Quiet(v)
  {
    if Quiet(v) {
      forall gaps, pair, ms, m, k: nat, junk | MayJoin(gaps, pair, ms, m) && m.element.value == v
        ensures ParseTicker(jsmn, TickerText(gaps, pair, Insert(ms, m, k)), junk)
             == ParseTicker(jsmn, TickerText(gaps, pair, ms), junk)
      {
        QuietDoesNotMatter(jsmn, gaps, pair, ms, m, k, junk);
      }
    } else {
      LoudMatters(jsmn, v);
    }
  }

  // ----- a value that is a key ----------------------------------------------------------

  /** The tokens of a member whose value is the name of `f`, and of those behind it. */
  ghost predicate IsStray(json: string, n: Token, v: Token, rest: seq<Token>, f: Field) {
    && Inside(json, n) && !IsKey(json, n)
    && Inside(json, v) && v.kind.StringToken? && Slice(json, v) == Name(f)
    && rest != [] && Inside(json, rest[0]) && rest[0].kind.StringToken?
  }

  lemma StrayTokens(json: string, m: Member, others: Members, at: nat, k: string, f: Field)
      returns (n: Token, v: Token, rest: seq<Token>)
    requires at <= |json| && json[at..] == WriteMembers(MoreMembers(m, others), k)
    requires !IsKeyName(m.tag.name) && m.element == Element("", String(Name(f)), "")
    ensures rest == MembersTokens(others, at + |WriteMember(m, "")| + 1)
    ensures MembersTokens(MoreMembers(m, others), at) == [n, v] + rest && IsStray(json, n, v, rest, f)
  {
    var start, name := at + |WriteLabel(m.tag, "")|, at + |m.tag.before| + 1;
    n, v := Token(StringToken, name, name + |m.tag.name|), Token(StringToken, start + 1, start + 1 + |Name(f)|);
    rest := MembersTokens(others, at + |WriteMember(m, "")| + 1);
    OthersPlaced(json, m, others, at, k);
    StrayPlaced(json, m, at, "," + WriteMembers(others, k), Name(f));
    FirstIsName(json, others, at + |WriteMember(m, "")| + 1, k);
    JoinStray(json, n, v, rest, m.tag.name, f);
    StrayShape(m, others, at, Name(f));
  }

  lemma JoinStray(json: string, n: Token, v: Token, rest: seq<Token>, name: string, f: Field)
    requires Inside(json, n) && Slice(json, n) == name && !IsKeyName(name)
    requires Inside(json, v) && v.kind.StringToken? && Slice(json, v) == Name(f)
    requires rest != [] && Inside(json, rest[0]) && rest[0].kind.StringToken?
    ensures IsStray(json, n, v, rest, f)
  {
  }

  lemma StrayPlaced(json: string, m: Member, at: nat, k: string, raw: string)
    requires at <= |json| && json[at..] == WriteMember(m, k) && m.element == Element("", String(raw), "")
    ensures var start, name := at + |WriteLabel(m.tag, "")|, at + |m.tag.before| + 1;
            && name + |m.tag.name| <= |json| && json[name..name + |m.tag.name|] == m.tag.name
            && start + 1 + |raw| <= |json| && json[start + 1..start + 1 + |raw|] == raw
  {
    LabelPlaced(json, m.tag, at, Write(m.element, k));
    StringPlaced(json, raw, at + |WriteLabel(m.tag, "")|, k);
  }

  lemma StrayShape(m: Member, others: Members, at: nat, raw: string)
    requires m.element == Element("", String(raw), "")
    ensures var start, name := at + |WriteLabel(m.tag, "")|, at + |m.tag.before| + 1;
            var n, v := Token(StringToken, name, name + |m.tag.name|), Token(StringToken, start + 1, start + 1 + |raw|);
            MembersTokens(MoreMembers(m, others), at)
            == [n, v] + MembersTokens(others, at + |WriteMember(m, "")| + 1)
  {
    var start, name := at + |WriteLabel(m.tag, "")|, at + |m.tag.before| + 1;
    var n, v := Token(StringToken, name, name + |m.tag.name|), Token(StringToken, start + 1, start + 1 + |raw|);
    assert ElementTokens(m.element, start) == [v];
    assert MemberTokens(m, at) == [n] + [v] == [n, v];
  }

  lemma StringPlaced(json: string, raw: string, at: nat, k: string)
    requires at <= |json| && json[at..] == Write(Element("", String(raw), ""), k)
    ensures at + 1 + |raw| <= |json| && json[at + 1..at + 1 + |raw|] == raw
  {
    Message.StringText("", raw, k);
    assert "" + ("\"" + (raw + ("\"" + k))) == "\"" + (raw + ("\"" + k));
    Shift(json, at, "\"", raw + ("\"" + k));
    Shift(json, at + 1, raw, "\"" + k);
  }

  lemma FirstIsName(json: string, ms: Members, at: nat, k: string)
    requires at <= |json| && json[at..] == WriteMembers(ms, k)
    ensures var toks := MembersTokens(ms, at);
            toks != [] && Inside(json, toks[0]) && toks[0].kind.StringToken?
  {
    MembersFit(json, ms, at, k);
    assert MemberTokens(ms.member, at) <= MembersTokens(ms, at);
  }

  /** The key's number is read off the name that comes next, which is no number. */
  lemma StrayTurns(json: string, n: Token, v: Token, rest: seq<Token>, t: Ticker, f: Field) returns (t': Ticker)
    requires IsStray(json, n, v, rest, f) && Scannable(json, rest)
    ensures Scannable(json, [n, v] + rest)
    ensures Scan(json, [n, v] + rest, t) == Scan(json, rest, t') && t'.Get(f) == ZERO && t'.pair == t.pair
  {
    var toks := [v] + rest;
    assert toks[0] == v && toks[1] == rest[0] && toks[1..] == rest;
    TurnGet(json, toks, t, f);
    ScannableStep(json, toks);
    t' := Turn(json, toks, t);
    assert ([n, v] + rest)[0] == n && ([n, v] + rest)[1..] == toks;
    SkipFirst(json, [n, v] + rest, t);
  }

  /** Members whose last word on `f` is a string value with its name leave the field at zero. */
  lemma StrayScan(json: string, m: Member, others: Members, at: nat, k: string, t: Ticker, f: Field)
    requires at <= |json| && json[at..] == WriteMembers(MoreMembers(m, others), k) && EndsElement(k)
    requires !IsKeyName(m.tag.name) && m.element == Element("", String(Name(f)), "")
    requires WellFormedMembers(others) && Tame(others) && Lookup(Bindings(others), Name(f)).None?
    ensures var toks := MembersTokens(MoreMembers(m, others), at);
            Scannable(json, toks) && Scan(json, toks, t).Get(f) == ZERO
  {
    var n, v, rest := StrayTokens(json, m, others, at, k, f);
    OthersPlaced(json, m, others, at, k);
    MembersScan(json, others, at + |WriteMember(m, "")| + 1, k, t);
    var t' := StrayTurns(json, n, v, rest, t, f);
    MembersScan(json, others, at + |WriteMember(m, "")| + 1, k, t');
    BindAllLookup(Bindings(others), t', f);
  }

  /** A text whose inner tokens can be scanned parses to what their scan gives. */
  lemma InnerParses(jsmn: Tokenizer, gaps: Layout, pair: string, inner: Members, junk: Ticker)
    requires AgreesWithGrammar(jsmn) && WellFormed(TickerElement(gaps, pair, inner))
    requires Scannable(TickerText(gaps, pair, inner), MembersTokens(inner, InnerStart(gaps, pair)))
    ensures ParseTicker(jsmn, TickerText(gaps, pair, inner), junk)
         == Extracted(Scan(TickerText(gaps, pair, inner), MembersTokens(inner, InnerStart(gaps, pair)),
                           junk.(pair := pair)))
  {
    var json, toks := TickerText(gaps, pair, inner), ElementTokens(TickerElement(gaps, pair, inner), 0);
    Tokenises(jsmn, TickerElement(gaps, pair, inner));
    TickerIsPair(gaps, pair, inner);
    TickerTokens(gaps, pair, inner);
    assert json[0..] == json;
    ElementFits(json, TickerElement(gaps, pair, inner), 0, "");
    assert toks[2..][1..] == toks[3..];
    SkipFirst(json, toks[2..], junk.(pair := pair));
  }

  /** `m` is an unknown member that holds the name of `f`, and nothing binds `f` behind it. */
  predicate IsLoud(m: Member, others: Members, f: Field) {
    && !IsKeyName(m.tag.name) && m.element == Element("", String(Name(f)), "")
    && Tame(others) && Lookup(Bindings(others), Name(f)).None?
  }

  /** Then the field ends at zero, whatever the member in front binds it to; so that member's
      number survives exactly when it reads as zero. */
  lemma LoudValueOverwrites(
    jsmn: Tokenizer, gaps: Layout, pair: string, first: Member, m: Member, others: Members, f: Field, junk: Ticker)
    requires AgreesWithGrammar(jsmn) && Quiet(first.element.value) && IsLoud(m, others, f)
    requires WellFormed(TickerElement(gaps, pair, MoreMembers(first, MoreMembers(m, others))))
    ensures var outcome := ParseTicker(jsmn, TickerText(gaps, pair, MoreMembers(first, MoreMembers(m, others))), junk);
            && outcome.Extracted? && outcome.ticker.Get(f) == ZERO
            && (outcome.ticker.Get(f) == Strtold(ValueText(first.element.value))
                <==> Strtold(ValueText(first.element.value)) == ZERO)
  {
    var behind := MoreMembers(m, others);
    var inner := MoreMembers(first, behind);
    InnerWellFormed(gaps, pair, inner);
    InnerPlaced(gaps, pair, inner);
    LoudScan(TickerText(gaps, pair, inner), first, m, others, InnerStart(gaps, pair), AfterInner(gaps),
             junk.(pair := pair), f);
    InnerParses(jsmn, gaps, pair, inner, junk);
  }

  lemma LoudScan(
    json: string, first: Member, m: Member, others: Members, at: nat, k: string, t: Ticker, f: Field)
    requires at <= |json| && json[at..] == WriteMembers(MoreMembers(first, MoreMembers(m, others)), k)
    requires WellFormedMember(first) && WellFormedMembers(others) && EndsElement(k)
    requires Quiet(first.element.value) && IsLoud(m, others, f)
    ensures var toks := MembersTokens(MoreMembers(first, MoreMembers(m, others)), at);
            Scannable(json, toks) && Scan(json, toks, t).Get(f) == ZERO
  {
    var next := at + |WriteMember(first, "")| + 1;
    OthersPlaced(json, first, MoreMembers(m, others), at, k);
    MemberPlaced(json, first, at, "," + WriteMembers(MoreMembers(m, others), k));
    StrayScan(json, m, others, next, k, Bind(t, BindingOf(first)), f);
    MemberTurns(json, MemberTokens(first, at), MembersTokens(MoreMembers(m, others), next), t, BindingOf(first));
  }

  /** `{"p":{"high":5,"note":"high","x":1}}`. */
  function LoudMembers(): Members {
    MoreMembers(Bare(Name(HIGH), Number("5")),
                MoreMembers(Bare("note", String(Name(HIGH))), LastMember(Bare("x", Number("1")))))
  }

  lemma LoudMembersWellFormed()
    ensures WellFormed(TickerElement(NO_GAPS, "p", LoudMembers()))
  {
    ShortNamesAreNoKeys();
    NameIsBody(HIGH);
    OneIsNumber();
    FiveIsNumber();
    KeyMemberWellFormed(HIGH, Number("5"));
    BareWellFormed("note", String(Name(HIGH)));
    BareWellFormed("x", Number("1"));
    ThreeWellFormed(Bare(Name(HIGH), Number("5")), Bare("note", String(Name(HIGH))), Bare("x", Number("1")));
    BareTickerWellFormed("p", LoudMembers());
  }

  lemma KeyMemberWellFormed(f: Field, v: Value)
    requires WellFormedValue(v)
    ensures WellFormedMember(Bare(Name(f), v))
  {
    NameIsBody(f);
  }

  lemma FiveIsNumber()
    ensures IsNumber("5") && Strtold("5") == Finite(5, 10, 0)
  {
    DecimalIsNumber(5);
    DoubleOfFixed(5, 0);
    assert Decimal(5) == "5" && Fixed(5, 0) == Decimal(5);
  }

  lemma ThreeWellFormed(a: Member, b: Member, c: Member)
    requires WellFormedMember(a) && WellFormedMember(b) && WellFormedMember(c)
    ensures WellFormedMembers(MoreMembers(a, MoreMembers(b, LastMember(c))))
  {
    assert WellFormedMembers(LastMember(c));
    assert WellFormedMembers(MoreMembers(b, LastMember(c)));
  }

  lemma LoudMembersShape()
    ensures IsLoud(LoudMembers().others.member, LoudMembers().others.others, HIGH)
    ensures Lookup(Bindings(LoudMembers()), Name(HIGH)) == Some("5")
  {
    ShortNamesAreNoKeys();
    NameIsLong(HIGH);
    LookupCons("x", "1", [], Name(HIGH));
    LookupCons("note", "", [("x", "1")], Name(HIGH));
    LookupCons(Name(HIGH), "5", [("note", "")] + [("x", "1")], Name(HIGH));
    assert Bindings(LoudMembers().others.others) == [("x", "1")] + [];
    assert Bindings(LoudMembers().others) == [("note", "")] + [("x", "1")];
    assert Bindings(LoudMembers()) == [(Name(HIGH), "5")] + ([("note", "")] + [("x", "1")]);
  }

  lemma LookupCons(name: string, text: string, bs: seq<Binding>, key: string)
    ensures Lookup([(name, text)] + bs, key)
         == if Lookup(bs, key).None? && name == key then Some(text) else Lookup(bs, key)
  {
    assert ([(name, text)] + bs)[1..] == bs;
  }

  /** This text binds `high` to 5, and is parsed with `high` at zero. */
  lemma LoudText(jsmn: Tokenizer, junk: Ticker)
    requires AgreesWithGrammar(jsmn)
    ensures Lookup(Bindings(LoudMembers()), Name(HIGH)) == Some("5") && Strtold("5") == Finite(5, 10, 0)
    ensures var outcome := ParseTicker(jsmn, TickerText(NO_GAPS, "p", LoudMembers()), junk);
            outcome.Extracted? && outcome.ticker.high == ZERO
  {
    var ms := LoudMembers();
    LoudMembersWellFormed();
    LoudMembersShape();
    FiveIsNumber();
    LoudValueOverwrites(jsmn, NO_GAPS, "p", ms.member, ms.others.member, ms.others.others, HIGH, junk);
  }

  // ----- a ticker without a time --------------------------------------------------------

  /** `{"p":{"high":1}}`. */
  function HighOnly(): Members {
    LastMember(Bare(Name(HIGH), Number("1")))
  }

  lemma BareElement(v: Value, k: string)
    ensures Write(Element("", v, ""), k) == WriteValue(v, k)
  {
    assert "" + k == k && "" + WriteValue(v, k) == WriteValue(v, k);
  }

  lemma BareObject(name: string, v: Value, k: string)
    ensures WriteValue(Object(LastMember(Bare(name, v))), k) == "{" + (("\"" + name + "\":") + WriteValue(v, "}" + k))
  {
    BareElement(v, "}" + k);
    BareLabel(name, WriteValue(v, "}" + k));
    assert WriteMembers(LastMember(Bare(name, v)), "}" + k) == WriteMember(Bare(name, v), "}" + k);
  }

  lemma BareText(pair: string, name: string, number: string)
    ensures TickerText(NO_GAPS, pair, LastMember(Bare(name, Number(number))))
         == "{" + (("\"" + pair + "\":") + ("{" + (("\"" + name + "\":") + (number + ("}" + ("}" + ""))))))
  {
    var inner := Object(LastMember(Bare(name, Number(number))));
    BareElement(Object(LastMember(Bare(pair, inner))), "");
    BareObject(pair, inner, "");
    BareObject(name, Number(number), "}" + "");
  }

  lemma BareLabel(name: string, k: string)
    ensures WriteLabel(Label("", name, ""), k) == ("\"" + name + "\":") + k
  {
    Message.LabelText(Label("", name, ""), k);
    assert "" + "\"" + name + "\"" + "" + ":" == "\"" + name + "\":";
  }

  function UndatedTicker(): string {
    TickerText(NO_GAPS, "p", HighOnly())
  }

  lemma UndatedIsCString()
    ensures NUL !in UndatedTicker()
  {
    BareText("p", Name(HIGH), "1");
    var key, tail := "\"" + Name(HIGH) + "\":", "1" + ("}" + ("}" + ""));
    assert NUL !in key && NUL !in tail;
    assert NUL !in "{" + (key + tail);
    assert NUL !in ("\"" + "p" + "\":") + ("{" + (key + tail));
  }

  /** Every tokeniser that agrees with the grammar makes this text a ticker without a time. */
  lemma UndatedText(jsmn: Tokenizer, junk: Ticker)
    requires AgreesWithGrammar(jsmn)
    ensures var text := UndatedTicker();
            NUL !in text && ParseTicker(jsmn, text, junk).Extracted? && !BindsKey(jsmn, text, UPDATED)
  {
    UndatedIsCString();
    HighOnlyWellFormed();
    HighOnlyHasNoTime();
    ParseBindsMembers(jsmn, NO_GAPS, "p", HighOnly(), junk);
    BoundTimeExactly(jsmn, NO_GAPS, "p", HighOnly());
  }

  lemma HighOnlyWellFormed()
    ensures WellFormed(TickerElement(NO_GAPS, "p", HighOnly())) && Tame(HighOnly())
  {
    OneIsNumber();
    KeyMemberWellFormed(HIGH, Number("1"));
    ShortNamesAreNoKeys();
    BareTickerWellFormed("p", HighOnly());
  }

  lemma HighOnlyHasNoTime()
    ensures Lookup(Bindings(HighOnly()), UPDATED).None?
  {
    NamesDiffer(HIGH);
    LookupCons(Name(HIGH), "1", [], UPDATED);
    assert Bindings(HighOnly()) == [(Name(HIGH), "1")] + [];
  }
}
