/** The ticker extractor of src/common/json/btc-e_ticker.c: what it computes. */
module Ticker {
  import opened Common
  import opened Text
  import opened Numbers
  import opened Tokens

  datatype Field = HIGH | LOW | AVG | VOL | VOL_CUR | LAST | BUY | SELL

  function Name(f: Field): CString {
    match f
    case HIGH => "high"
    case LOW => "low"
    case AVG => "avg"
    case VOL => "vol"
    case VOL_CUR => "vol_cur"
    case LAST => "last"
    case BUY => "buy"
    case SELL => "sell"
  }

  const UPDATED: CString := "updated"

  /** `struct btce_ticker`. */
  datatype Ticker = Ticker(
    pair: string, high: Double, low: Double, avg: Double, vol: Double,
    volCur: Double, last: Double, buy: Double, sell: Double, updated: CInt)
  {
    function Get(f: Field): Double {
      match f
      case HIGH => high
      case LOW => low
      case AVG => avg
      case VOL => vol
      case VOL_CUR => volCur
      case LAST => last
      case BUY => buy
      case SELL => sell
    }
  }

  /** A ticker is its pair, its fields and its time. */
  lemma SameTicker(t: Ticker, u: Ticker)
    requires t.pair == u.pair && t.updated == u.updated
    requires forall f: Field :: t.Get(f) == u.Get(f)
    ensures t == u
  {
    assert t.Get(HIGH) == u.Get(HIGH) && t.Get(LOW) == u.Get(LOW) && t.Get(AVG) == u.Get(AVG);
    assert t.Get(VOL) == u.Get(VOL) && t.Get(VOL_CUR) == u.Get(VOL_CUR) && t.Get(LAST) == u.Get(LAST);
    assert t.Get(BUY) == u.Get(BUY) && t.Get(SELL) == u.Get(SELL);
  }

  predicate IsKeyName(s: string) {
    s == UPDATED || exists f: Field :: s == Name(f)
  }

  /** The token is one that the scan reacts to. */
  predicate IsKey(json: string, t: Token)
    requires Inside(json, t)
  {
    t.kind.StringToken? && IsKeyName(Slice(json, t))
  }

  /** The scan stays inside the token array: every key has a token after it. */
  predicate Scannable(json: string, toks: seq<Token>) {
    && (forall i :: 0 <= i < |toks| ==> Inside(json, toks[i]))
    && (forall i :: 0 <= i < |toks| && IsKey(json, toks[i]) ==> i + 1 < |toks|)
  }

  /** Only the last token can break this. */
  lemma ScannableExactly(json: string, toks: seq<Token>)
    requires forall i :: 0 <= i < |toks| ==> Inside(json, toks[i])
    ensures Scannable(json, toks) <==> toks == [] || !IsKey(json, toks[|toks| - 1])
  {
  }

  /** A turn at the first of these tokens reads no others than the first two, and only
      inside the text. */
  predicate TurnInside(json: string, toks: seq<Token>) {
    && toks != [] && Inside(json, toks[0])
    && (|toks| > 1 ==> Inside(json, toks[1]))
    && (IsKey(json, toks[0]) ==> |toks| > 1)
  }

  /** The scan stays inside when this turn does and the rest does. */
  lemma ScannableStep(json: string, toks: seq<Token>)
    requires toks != []
    ensures Scannable(json, toks) <==> TurnInside(json, toks) && Scannable(json, toks[1..])
  {
    assert forall i :: 0 <= i < |toks| - 1 ==> toks[1..][i] == toks[i + 1];
    assert forall i :: 0 < i < |toks| ==> toks[i] == toks[1..][i - 1];
  }

  /** Wherever one of the nine keys matches there is a token to read. */
  lemma KeysHaveSuccessor(json: string, toks: seq<Token>)
    requires TurnInside(json, toks)
    ensures EqualJsonKey(json, toks[0], UPDATED) ==> |toks| > 1
    ensures forall f: Field :: EqualJsonKey(json, toks[0], Name(f)) ==> |toks| > 1
  {
    if EqualJsonKey(json, toks[0], UPDATED) {
      assert IsKey(json, toks[0]);
    }
    forall f: Field | EqualJsonKey(json, toks[0], Name(f))
      ensures |toks| > 1
    {
      assert IsKey(json, toks[0]);
    }
  }

  /** A field after one turn at the first token of `toks`. */
  function FieldAfter(json: string, toks: seq<Token>, f: Field, value: Double): Double
    requires TurnInside(json, toks)
  {
    KeysHaveSuccessor(json, toks);
    if EqualJsonKey(json, toks[0], Name(f)) then GetJsonDouble(json, toks[1]) else value
  }

  function UpdatedAfter(json: string, toks: seq<Token>, value: CInt): CInt
    requires TurnInside(json, toks)
  {
    KeysHaveSuccessor(json, toks);
    if EqualJsonKey(json, toks[0], UPDATED) then GetJsonInt(json, toks[1]) else value
  }

  /** One turn of the scan. */
  function Turn(json: string, toks: seq<Token>, t: Ticker): Ticker
    requires TurnInside(json, toks)
  {
    Ticker(t.pair,
           FieldAfter(json, toks, HIGH, t.high),
           FieldAfter(json, toks, LOW, t.low),
           FieldAfter(json, toks, AVG, t.avg),
           FieldAfter(json, toks, VOL, t.vol),
           FieldAfter(json, toks, VOL_CUR, t.volCur),
           FieldAfter(json, toks, LAST, t.last),
           FieldAfter(json, toks, BUY, t.buy),
           FieldAfter(json, toks, SELL, t.sell),
           UpdatedAfter(json, toks, t.updated))
  }

  /** The whole scan, one token after the other. */
  function Scan(json: string, toks: seq<Token>, t: Ticker): Ticker
    requires Scannable(json, toks)
  {
    if toks == [] then t
    else
      ScannableStep(json, toks);
      Scan(json, toks[1..], Turn(json, toks, t))
  }

  /** The index of the last token that is the given key. */
  function LastKey(json: string, toks: seq<Token>, key: CString): (r: Option<nat>)
    requires forall i :: 0 <= i < |toks| ==> Inside(json, toks[i])
    ensures r.None? ==> forall i :: 0 <= i < |toks| ==> !EqualJsonKey(json, toks[i], key)
    ensures r.Some? ==> r.value < |toks| && EqualJsonKey(json, toks[r.value], key)
    ensures r.Some? ==> forall i :: r.value < i < |toks| ==> !EqualJsonKey(json, toks[i], key)
  {
    if toks == [] then None
    else
      assert forall i :: 0 <= i < |toks| - 1 ==> toks[1..][i] == toks[i + 1];
      match LastKey(json, toks[1..], key)
      case Some(i) => Some(i + 1)
      case None => if EqualJsonKey(json, toks[0], key) then Some(0) else None
  }

  /** No two keys share a name, and none is `updated`. */
  lemma NamesDiffer(f: Field)
    ensures Name(f) != UPDATED
    ensures forall g: Field :: Name(f) == Name(g) ==> f == g
  {
    assert |Name(HIGH)| == 4 && |Name(LOW)| == 3 && |Name(AVG)| == 3 && |Name(VOL)| == 3;
    assert |Name(VOL_CUR)| == 7 && |Name(LAST)| == 4 && |Name(BUY)| == 3 && |Name(SELL)| == 4;
    assert Name(VOL_CUR)[0] == 'v' && UPDATED[0] == 'u';
  }

  lemma TurnGet(json: string, toks: seq<Token>, t: Ticker, f: Field)
    requires TurnInside(json, toks)
    ensures EqualJsonKey(json, toks[0], Name(f)) ==> |toks| > 1
    ensures Turn(json, toks, t).Get(f)
         == if EqualJsonKey(json, toks[0], Name(f)) then GetJsonDouble(json, toks[1]) else t.Get(f)
  {
    KeysHaveSuccessor(json, toks);
    assert Turn(json, toks, t).Get(f) == FieldAfter(json, toks, f, t.Get(f));
  }

  lemma LastKeyStep(json: string, toks: seq<Token>, key: CString)
    requires toks != [] && forall i :: 0 <= i < |toks| ==> Inside(json, toks[i])
    ensures forall i :: 0 <= i < |toks| - 1 ==> toks[1..][i] == toks[i + 1]
    ensures LastKey(json, toks, key)
         == match LastKey(json, toks[1..], key)
            case Some(i) => Some(i + 1)
            case None => if EqualJsonKey(json, toks[0], key) then Some(0) else None
  {
  }

  /** Each field ends as the value after the last token with its name, or as it was. */
  lemma {:induction false} ScanFindsLast(json: string, toks: seq<Token>, t: Ticker, f: Field)
    requires Scannable(json, toks)
    decreases |toks|
    ensures match LastKey(json, toks, Name(f))
            case None => Scan(json, toks, t).Get(f) == t.Get(f)
            case Some(i) => i + 1 < |toks| && Scan(json, toks, t).Get(f) == GetJsonDouble(json, toks[i + 1])
  {
    if toks != [] {
      ScannableStep(json, toks);
      TurnGet(json, toks, t, f);
      LastKeyStep(json, toks, Name(f));
      ScanFindsLast(json, toks[1..], Turn(json, toks, t), f);
    }
  }

  /** And so does the time. */
  lemma {:induction false} ScanFindsLastUpdated(json: string, toks: seq<Token>, t: Ticker)
    requires Scannable(json, toks)
    decreases |toks|
    ensures match LastKey(json, toks, UPDATED)
            case None => Scan(json, toks, t).updated == t.updated
            case Some(i) => i + 1 < |toks| && Scan(json, toks, t).updated == GetJsonInt(json, toks[i + 1])
  {
    if toks != [] {
      ScannableStep(json, toks);
      KeysHaveSuccessor(json, toks);
      ScanFindsLastUpdated(json, toks[1..], Turn(json, toks, t));
    }
  }

  /** What a number is after a scan: the value behind the last token that is the key. */
  function NumberAfter(json: string, toks: seq<Token>, key: CString, before: Double): Double
    requires Scannable(json, toks)
  {
    match LastKey(json, toks, key)
    case None => before
    case Some(i) => if i + 1 < |toks| then GetJsonDouble(json, toks[i + 1]) else before
  }

  function TimeAfter(json: string, toks: seq<Token>, key: CString, before: CInt): CInt
    requires Scannable(json, toks)
  {
    match LastKey(json, toks, key)
    case None => before
    case Some(i) => if i + 1 < |toks| then GetJsonInt(json, toks[i + 1]) else before
  }

  /** The key takes the number from `before` to `after`. */
  predicate Fills(json: string, toks: seq<Token>, key: string, before: Double, after: Double) {
    Scannable(json, toks) && NUL !in key && after == NumberAfter(json, toks, key, before)
  }

  predicate FillsTime(json: string, toks: seq<Token>, key: string, before: CInt, after: CInt) {
    Scannable(json, toks) && NUL !in key && after == TimeAfter(json, toks, key, before)
  }

  /** Which key fills which field. */
  predicate NineKeys(json: string, toks: seq<Token>, t: Ticker, t': Ticker) {
    && AverageKeys(json, toks, t, t') && DealKeys(json, toks, t, t')
    && FillsTime(json, toks, "updated", t.updated, t'.updated)
  }

  predicate AverageKeys(json: string, toks: seq<Token>, t: Ticker, t': Ticker) {
    && Fills(json, toks, "high", t.high, t'.high)
    && Fills(json, toks, "low", t.low, t'.low)
    && Fills(json, toks, "avg", t.avg, t'.avg)
    && Fills(json, toks, "vol", t.vol, t'.vol)
    && Fills(json, toks, "vol_cur", t.volCur, t'.volCur)
  }

  predicate DealKeys(json: string, toks: seq<Token>, t: Ticker, t': Ticker) {
    && Fills(json, toks, "last", t.last, t'.last)
    && Fills(json, toks, "buy", t.buy, t'.buy)
    && Fills(json, toks, "sell", t.sell, t'.sell)
  }

  lemma ScanFills(json: string, toks: seq<Token>, t: Ticker, t': Ticker, f: Field, key: string)
    requires Scannable(json, toks) && t' == Scan(json, toks, t) && key == Name(f)
    ensures Fills(json, toks, key, t.Get(f), t'.Get(f))
  {
    ScanFindsLast(json, toks, t, f);
  }

  lemma ScanFillsTime(json: string, toks: seq<Token>, t: Ticker, t': Ticker, key: string)
    requires Scannable(json, toks) && t' == Scan(json, toks, t) && key == UPDATED
    ensures FillsTime(json, toks, key, t.updated, t'.updated)
  {
    ScanFindsLastUpdated(json, toks, t);
  }

  lemma ScanFillsAverages(json: string, toks: seq<Token>, t: Ticker, t': Ticker)
    requires Scannable(json, toks) && t' == Scan(json, toks, t)
    ensures AverageKeys(json, toks, t, t')
  {
    ScanFills(json, toks, t, t', HIGH, "high");
    ScanFills(json, toks, t, t', LOW, "low");
    ScanFills(json, toks, t, t', AVG, "avg");
    ScanFills(json, toks, t, t', VOL, "vol");
    ScanFills(json, toks, t, t', VOL_CUR, "vol_cur");
  }

  lemma ScanFillsDeals(json: string, toks: seq<Token>, t: Ticker, t': Ticker)
    requires Scannable(json, toks) && t' == Scan(json, toks, t)
    ensures DealKeys(json, toks, t, t')
  {
    ScanFills(json, toks, t, t', LAST, "last");
    ScanFills(json, toks, t, t', BUY, "buy");
    ScanFills(json, toks, t, t', SELL, "sell");
  }

  /** Every field is filled by the key of its own name. */
  lemma ScanFillsNine(json: string, toks: seq<Token>, t: Ticker)
    requires Scannable(json, toks)
    ensures NineKeys(json, toks, t, Scan(json, toks, t))
  {
    ScanFillsAverages(json, toks, t, Scan(json, toks, t));
    ScanFillsDeals(json, toks, t, Scan(json, toks, t));
    ScanFillsTime(json, toks, t, Scan(json, toks, t), "updated");
  }

  /** And the scan reacts to no other names. */
  lemma KeyNamesExactly(s: string)
    ensures IsKeyName(s)
       <==> s in ["high", "low", "avg", "vol", "vol_cur", "last", "buy", "sell", "updated"]
  {
    assert Name(HIGH) == "high" && Name(LOW) == "low" && Name(AVG) == "avg" && Name(VOL) == "vol";
    assert Name(VOL_CUR) == "vol_cur" && Name(LAST) == "last" && Name(BUY) == "buy" && Name(SELL) == "sell";
  }

  lemma {:induction false} ScanKeepsPair(json: string, toks: seq<Token>, t: Ticker)
    requires Scannable(json, toks)
    decreases |toks|
    ensures Scan(json, toks, t).pair == t.pair
  {
    if toks != [] {
      ScannableStep(json, toks);
      ScanKeepsPair(json, toks[1..], Turn(json, toks, t));
    }
  }

  // ----- the whole parse ----------------------------------------------------------------

  /** `Overrun` is a read outside the token array or outside the text. */
  datatype Outcome = Extracted(ticker: Ticker) | Failed(errno: Errno) | Overrun

  /** What `parse_btc_e_ticker` does when the memory for the ticker holds `junk`. */
  function ParseTicker(jsmn: Tokenizer, json: string, junk: Ticker): Outcome {
    match jsmn(json)
    case Refused(code) => Failed(JsmnError(code))
    case Tokenised(toks) =>
      if |toks| == 0 then Overrun
      else if !toks[0].kind.ObjectToken? then Failed(EINVAL)
      else if |toks| == 1 then Overrun
      else if !toks[1].kind.StringToken? then Failed(EINVAL)
      else if !Inside(json, toks[1]) || !Scannable(json, toks[2..]) then Overrun
      else Extracted(Scan(json, toks[2..], junk.(pair := Slice(json, toks[1]))))
  }

  /** Every error and its reason. */
  lemma FailsExactly(jsmn: Tokenizer, json: string, junk: Ticker)
    ensures ParseTicker(jsmn, json, junk) == Failed(ENOMEM) <==> jsmn(json) == Refused(NoMemory)
    ensures ParseTicker(jsmn, json, junk) == Failed(EIO) <==> jsmn(json) == Refused(Invalid)
    ensures ParseTicker(jsmn, json, junk) == Failed(EAGAIN) <==> jsmn(json) == Refused(Partial)
    ensures ParseTicker(jsmn, json, junk) == Failed(ENOENT) <==> jsmn(json) == Refused(OtherCode)
    ensures ParseTicker(jsmn, json, junk) == Failed(EINVAL)
       <==> && jsmn(json).Tokenised? && jsmn(json).tokens != []
            && var toks := jsmn(json).tokens;
               toks[0].kind != ObjectToken || (|toks| > 1 && toks[1].kind != StringToken)
    ensures ParseTicker(jsmn, json, junk) != Failed(EOK)
  {
  }

  /** A text that parses, and to what: the pair is the second token, and the keys are looked
      for behind it. */
  lemma ParseFillsNine(jsmn: Tokenizer, json: string, junk: Ticker)
    requires ParseTicker(jsmn, json, junk).Extracted?
    ensures var t := ParseTicker(jsmn, json, junk).ticker;
            && jsmn(json).Tokenised? && |jsmn(json).tokens| > 1
            && var toks := jsmn(json).tokens;
               && Inside(json, toks[1]) && t.pair == Slice(json, toks[1])
               && Scannable(json, toks[2..]) && NineKeys(json, toks[2..], junk, t)
  {
    var toks := jsmn(json).tokens;
    var start := junk.(pair := Slice(json, toks[1]));
    ScanFillsNine(json, toks[2..], start);
    ScanKeepsPair(json, toks[2..], start);
  }

  // ----- what does not depend on the memory ---------------------------------------------

  /** The text has a string token, after the first two tokens, that is the key. */
  predicate BindsKey(jsmn: Tokenizer, text: string, key: CString) {
    && jsmn(text).Tokenised?
    && var toks := jsmn(text).tokens;
       exists i :: 2 <= i < |toks| && Inside(text, toks[i]) && EqualJsonKey(text, toks[i], key)
  }

  /** All nine keys are there. */
  predicate BindsAll(jsmn: Tokenizer, text: string) {
    BindsKey(jsmn, text, UPDATED) && forall f: Field :: BindsKey(jsmn, text, Name(f))
  }

  lemma LastKeyIsBound(jsmn: Tokenizer, text: string, key: CString)
    requires jsmn(text).Tokenised? && |jsmn(text).tokens| > 1 && Scannable(text, jsmn(text).tokens[2..])
    ensures LastKey(text, jsmn(text).tokens[2..], key).Some? <==> BindsKey(jsmn, text, key)
  {
    var toks := jsmn(text).tokens;
    assert forall i :: 0 <= i < |toks| - 2 ==> toks[2..][i] == toks[i + 2];
    match LastKey(text, toks[2..], key)
    case Some(i) =>
      assert EqualJsonKey(text, toks[i + 2], key);
    case None =>
      assert forall i :: 2 <= i < |toks| ==> toks[i] == toks[2..][i - 2];
  }

  /** Whether a text parses, and to what pair, does not depend on the memory. */
  lemma OutcomeKind(jsmn: Tokenizer, text: string, j1: Ticker, j2: Ticker)
    ensures ParseTicker(jsmn, text, j1).Extracted? <==> ParseTicker(jsmn, text, j2).Extracted?
  {
  }

  /** The time depends on the memory exactly when the text has no `updated` key; then it is
      what the memory held. */
  lemma TimeFromText(jsmn: Tokenizer, text: string, j1: Ticker, j2: Ticker)
    requires ParseTicker(jsmn, text, j1).Extracted? && ParseTicker(jsmn, text, j2).Extracted?
    ensures BindsKey(jsmn, text, UPDATED) ==>
              ParseTicker(jsmn, text, j1).ticker.updated == ParseTicker(jsmn, text, j2).ticker.updated
    ensures !BindsKey(jsmn, text, UPDATED) ==> ParseTicker(jsmn, text, j1).ticker.updated == j1.updated
  {
    var toks := jsmn(text).tokens;
    var pair := Slice(text, toks[1]);
    LastKeyIsBound(jsmn, text, UPDATED);
    ScanFindsLastUpdated(text, toks[2..], j1.(pair := pair));
    ScanFindsLastUpdated(text, toks[2..], j2.(pair := pair));
  }

  lemma FieldFromText(jsmn: Tokenizer, text: string, j1: Ticker, j2: Ticker, f: Field)
    requires ParseTicker(jsmn, text, j1).Extracted? && ParseTicker(jsmn, text, j2).Extracted?
    requires BindsKey(jsmn, text, Name(f))
    ensures ParseTicker(jsmn, text, j1).ticker.Get(f) == ParseTicker(jsmn, text, j2).ticker.Get(f)
  {
    var toks := jsmn(text).tokens;
    var pair := Slice(text, toks[1]);
    LastKeyIsBound(jsmn, text, Name(f));
    ScanFindsLast(text, toks[2..], j1.(pair := pair), f);
    ScanFindsLast(text, toks[2..], j2.(pair := pair), f);
  }

  /** A field whose key is missing is what the memory held. */
  lemma FieldFromMemory(jsmn: Tokenizer, text: string, junk: Ticker, f: Field)
    requires ParseTicker(jsmn, text, junk).Extracted? && !BindsKey(jsmn, text, Name(f))
    ensures ParseTicker(jsmn, text, junk).ticker.Get(f) == junk.Get(f)
  {
    var toks := jsmn(text).tokens;
    var start := junk.(pair := Slice(text, toks[1]));
    LastKeyIsBound(jsmn, text, Name(f));
    ScanFindsLast(text, toks[2..], start, f);
    assert start.Get(f) == junk.Get(f);
  }

  /** With all nine keys the whole outcome is the text's. */
  lemma TickerFromText(jsmn: Tokenizer, text: string, j1: Ticker, j2: Ticker)
    ensures BindsAll(jsmn, text) ==> ParseTicker(jsmn, text, j1) == ParseTicker(jsmn, text, j2)
  {
    OutcomeKind(jsmn, text, j1, j2);
    if BindsAll(jsmn, text) && ParseTicker(jsmn, text, j1).Extracted? {
      SameFromText(jsmn, text, j1, j2);
    }
  }

  lemma SameFromText(jsmn: Tokenizer, text: string, j1: Ticker, j2: Ticker)
    requires ParseTicker(jsmn, text, j1).Extracted? && ParseTicker(jsmn, text, j2).Extracted?
    requires BindsAll(jsmn, text)
    ensures ParseTicker(jsmn, text, j1) == ParseTicker(jsmn, text, j2)
  {
    var toks := jsmn(text).tokens;
    var pair := Slice(text, toks[1]);
    var t, u := ParseTicker(jsmn, text, j1).ticker, ParseTicker(jsmn, text, j2).ticker;
    ScanKeepsPair(text, toks[2..], j1.(pair := pair));
    ScanKeepsPair(text, toks[2..], j2.(pair := pair));
    TimeFromText(jsmn, text, j1, j2);
    forall f: Field
      ensures t.Get(f) == u.Get(f)
    {
      FieldFromText(jsmn, text, j1, j2, f);
    }
    SameTicker(t, u);
  }
}
