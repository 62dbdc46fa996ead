/** The extractor in the form the program has: a loop that fills the fields of one object. */
module BtceTicker {
  import opened Common
  import opened Numbers
  import opened Tokens
  import opened Ticker

  /** `struct btce_ticker` in memory that nothing has cleared. */
  class TickerData {
    var pair: string
    var high: Double
    var low: Double
    var avg: Double
    var vol: Double
    var volCur: Double
    var last: Double
    var buy: Double
    var sell: Double
    var updated: CInt

    function Value(): Ticker
      reads this
    {
      Ticker(pair, high, low, avg, vol, volCur, last, buy, sell, updated)
    }

    constructor (junk: Ticker)
      ensures Value() == junk
    {
      pair, updated := junk.pair, junk.updated;
      high, low, avg, vol := junk.high, junk.low, junk.avg, junk.vol;
      volCur, last, buy, sell := junk.volCur, junk.last, junk.buy, junk.sell;
    }
  }

  /** The first five tests of the loop body, at the first token of `toks`. */
  method SetAverages(json: string, ghost toks: seq<Token>, token: Token, next: Option<Token>, data: TickerData)
    requires TurnInside(json, toks) && token == toks[0]
    requires next == if |toks| > 1 then Some(toks[1]) else None
    modifies data`high, data`low, data`avg, data`vol, data`volCur
    ensures data.high == FieldAfter(json, toks, HIGH, old(data.high))
    ensures data.low == FieldAfter(json, toks, LOW, old(data.low))
    ensures data.avg == FieldAfter(json, toks, AVG, old(data.avg))
    ensures data.vol == FieldAfter(json, toks, VOL, old(data.vol))
    ensures data.volCur == FieldAfter(json, toks, VOL_CUR, old(data.volCur))
  {
    KeysHaveSuccessor(json, toks);
    if EqualJsonKey(json, token, Name(HIGH)) {
      data.high := GetJsonDouble(json, next.value);
    }
    if EqualJsonKey(json, token, Name(LOW)) {
      data.low := GetJsonDouble(json, next.value);
    }
    if EqualJsonKey(json, token, Name(AVG)) {
      data.avg := GetJsonDouble(json, next.value);
    }
    if EqualJsonKey(json, token, Name(VOL)) {
      data.vol := GetJsonDouble(json, next.value);
    }
    if EqualJsonKey(json, token, Name(VOL_CUR)) {
      data.volCur := GetJsonDouble(json, next.value);
    }
  }

  /** The other four. */
  method SetDeals(json: string, ghost toks: seq<Token>, token: Token, next: Option<Token>, data: TickerData)
    requires TurnInside(json, toks) && token == toks[0]
    requires next == if |toks| > 1 then Some(toks[1]) else None
    modifies data`last, data`buy, data`sell, data`updated
    ensures data.last == FieldAfter(json, toks, LAST, old(data.last))
    ensures data.buy == FieldAfter(json, toks, BUY, old(data.buy))
    ensures data.sell == FieldAfter(json, toks, SELL, old(data.sell))
    ensures data.updated == UpdatedAfter(json, toks, old(data.updated))
  {
    KeysHaveSuccessor(json, toks);
    if EqualJsonKey(json, token, Name(LAST)) {
      data.last := GetJsonDouble(json, next.value);
    }
    if EqualJsonKey(json, token, Name(BUY)) {
      data.buy := GetJsonDouble(json, next.value);
    }
    if EqualJsonKey(json, token, Name(SELL)) {
      data.sell := GetJsonDouble(json, next.value);
    }
    if EqualJsonKey(json, token, UPDATED) {
      data.updated := GetJsonInt(json, next.value);
    }
  }

  /** The body of the loop. */
  method SetFields(json: string, ghost toks: seq<Token>, token: Token, next: Option<Token>, data: TickerData)
    requires TurnInside(json, toks) && token == toks[0]
    requires next == if |toks| > 1 then Some(toks[1]) else None
    modifies data
    ensures data.Value() == Turn(json, toks, old(data.Value()))
  {
    SetAverages(json, toks, token, next, data);
    SetDeals(json, toks, token, next, data);
  }

  /** The object holds what the tokens say: the pair is the second, and each field has the
      value behind the last key of its own name, or what it held before. */
  ghost predicate Holds(jsmn: Tokenizer, json: string, before: Ticker, after: Ticker) {
    && jsmn(json).Tokenised? && |jsmn(json).tokens| > 1
    && var toks := jsmn(json).tokens;
       && Inside(json, toks[1]) && after.pair == Slice(json, toks[1])
       && Scannable(json, toks[2..]) && NineKeys(json, toks[2..], before, after)
  }

  /** `parse_btc_e_ticker`; `overran` says that it has read outside the token array or
      outside the text, where the modelled run ends. */
  method ParseBtceTicker(jsmn: Tokenizer, json: string, data: TickerData) returns (ret: Errno, overran: bool)
    modifies data
    ensures match ParseTicker(jsmn, json, old(data.Value()))
            case Extracted(t) => ret == EOK && !overran && data.Value() == t
            case Failed(e) => ret == e && ret != EOK && !overran
            case Overrun => overran
    ensures !overran && ret == EOK ==> Holds(jsmn, json, old(data.Value()), data.Value())
  {
    overran := false;
    var counted := jsmn(json);
    if counted.Refused? {
      return JsmnError(counted.code), false;
    }
    var tokensCount := |counted.tokens|;
    var tokens := new Token[tokensCount](i requires 0 <= i < tokensCount => counted.tokens[i]);
    assert tokens[..] == counted.tokens;
    if tokensCount == 0 {
      return EOK, true;
    }
    if !tokens[0].kind.ObjectToken? {
      return EINVAL, false;
    }
    if tokensCount == 1 {
      return EOK, true;
    }
    if !tokens[1].kind.StringToken? {
      return EINVAL, false;
    }
    if !Inside(json, tokens[1]) {
      return EOK, true;
    }
    data.pair := json[tokens[1].start..tokens[1].end];
    ghost var start := data.Value();
    ghost var toks := counted.tokens[2..];
    assert tokens[2..] == toks;
    for i := 2 to tokensCount
      invariant tokens[..] == counted.tokens
      invariant Scannable(json, toks) <==> Scannable(json, tokens[i..])
      invariant Scannable(json, toks) ==> Scan(json, tokens[i..], data.Value()) == Scan(json, toks, start)
    {
      ghost var rest := tokens[i..];
      ScannableStep(json, rest);
      assert rest[1..] == tokens[i + 1..];
      if !TurnInside(json, tokens[i..]) {
        return EOK, true;
      }
      assert |rest| > 1 ==> rest[1] == tokens[i + 1];
      var next := if i + 1 < tokensCount then Some(tokens[i + 1]) else None;
      SetFields(json, rest, tokens[i], next, data);
    }
    ParseFillsNine(jsmn, json, old(data.Value()));
    ret := EOK;
  }
}
