/**
 The loops of src/app/crawler.c and src/app/collector.c, each on its own.

 `Crawl` and `Collect` are one turn of either loop. The methods are the loops themselves,
 and are proved to take these turns one after the other.
 */
module Pipeline {
  import opened Common
  import opened Text
  import opened Bus
  import opened Tokens
  import opened Ticker
  import opened BtceTicker
  import opened Freshness

  // ----- the turns of the two loops -----------------------------------------------------

  /** A poll's answer, with what the memory for its ticker holds and whether the bus would
      take the message. */
  datatype Answer = Body(text: CString, junk: Ticker, accepted: bool) | NoAnswer

  datatype Crawler = Crawler(updated: CInt, budget: nat, running: bool)

  predicate Turns(c: Crawler) {
    c.running && c.budget > 0
  }

  /** One turn of the crawler's loop; the texts it sends are returned. */
  function Crawl(jsmn: Tokenizer, c: Crawler, a: Answer): (Crawler, seq<CString>) {
    if !Turns(c) then (c, [])
    else if a.NoAnswer? then (c.(running := false), [])
    else
      match ParseTicker(jsmn, a.text, a.junk)
      case Extracted(t) =>
        if t.updated <= c.updated then (c.(budget := c.budget - 1), [])
        else if !a.accepted then (c.(updated := t.updated, running := false), [])
        else (c.(updated := t.updated, budget := c.budget - 1), [a.text])
      case _ => (c.(running := false), [])
  }

  /** How storing a tick ends: a failure may come after the row is in. */
  datatype Insertion = Inserts | InsertsThenFails | FailsToInsert

  datatype Chance = Chance(delivery: Delivery, junk: Ticker, insertion: Insertion)

  datatype Collector = Collector(stored: seq<Ticker>, budget: nat, running: bool)

  predicate Takes(c: Collector, inbox: seq<string>, x: Chance) {
    c.running && c.budget > 0 && x.delivery.Normal? && inbox != []
  }

  /** One turn of the collector's loop with `inbox` waiting at its socket. */
  function Collect(jsmn: Tokenizer, c: Collector, inbox: seq<string>, x: Chance): Collector {
    if !c.running || c.budget == 0 then c
    else if x.delivery.Fault? then c.(running := false)
    else if inbox == [] then c.(budget := c.budget - 1)
    else
      match ParseTicker(jsmn, UpToNul(inbox[0]), x.junk)
      case Extracted(t) =>
        (match x.insertion
         case Inserts => c.(stored := c.stored + [t], budget := c.budget - 1)
         case InsertsThenFails => c.(stored := c.stored + [t], running := false)
         case FailsToInsert => c.(running := false))
      case _ => c.(running := false)
  }

  /** What is sent for a text: the chunk's size counts the terminator. */
  function Wire(text: CString): string {
    text + [NUL]
  }

  function Wires(texts: seq<CString>): (ws: seq<string>)
    ensures |ws| == |texts|
    ensures forall i :: 0 <= i < |ws| ==> ws[i] == texts[i] + ['\0']
  {
    seq(|texts|, i requires 0 <= i < |texts| => Wire(texts[i]))
  }

  function CrawlAll(jsmn: Tokenizer, c: Crawler, answers: seq<Answer>): (Crawler, seq<CString>) {
    if answers == [] then (c, [])
    else
      var before := answers[..|answers| - 1];
      var (c', sent) := CrawlAll(jsmn, c, before);
      var (c'', more) := Crawl(jsmn, c', answers[|answers| - 1]);
      (c'', sent + more)
  }

  lemma WiresAppend(texts: seq<CString>, more: seq<CString>)
    ensures Wires(texts + more) == Wires(texts) + Wires(more)
  {
  }

  // ----- exactly what the crawler does --------------------------------------------------

  predicate Parses(jsmn: Tokenizer, a: Answer) {
    a.Body? && ParseTicker(jsmn, a.text, a.junk).Extracted?
  }

  function AnswerTime(jsmn: Tokenizer, a: Answer): int {
    if Parses(jsmn, a) then ParseTicker(jsmn, a.text, a.junk).ticker.updated else 0
  }

  function AnswerTimes(jsmn: Tokenizer, answers: seq<Answer>): seq<int> {
    seq(|answers|, i requires 0 <= i < |answers| => AnswerTime(jsmn, answers[i]))
  }

  /** The answer parses, and if it is newer than all before it, the bus takes it. */
  predicate GoodAnswer(jsmn: Tokenizer, answers: seq<Answer>, i: nat)
    requires i < |answers|
  {
    Parses(jsmn, answers[i]) && (IsRecord(AnswerTimes(jsmn, answers), 0, i) ==> answers[i].accepted)
  }

  ghost predicate AllGood(jsmn: Tokenizer, answers: seq<Answer>) {
    forall i :: 0 <= i < |answers| ==> GoodAnswer(jsmn, answers, i)
  }

  /** The texts of the records among the answers, in order. */
  function Published(jsmn: Tokenizer, answers: seq<Answer>): seq<CString> {
    if answers == [] then []
    else
      var n := |answers| - 1;
      Published(jsmn, answers[..n])
      + if answers[n].Body? && IsRecord(AnswerTimes(jsmn, answers), 0, n) then [answers[n].text] else []
  }

  lemma TimesOfPrefix(jsmn: Tokenizer, answers: seq<Answer>, n: nat)
    requires n <= |answers|
    ensures AnswerTimes(jsmn, answers[..n]) == AnswerTimes(jsmn, answers)[..n]
  {
  }

  lemma GoodPrefix(jsmn: Tokenizer, answers: seq<Answer>, n: nat, i: nat)
    requires i < n <= |answers|
    ensures GoodAnswer(jsmn, answers[..n], i) <==> GoodAnswer(jsmn, answers, i)
  {
    TimesOfPrefix(jsmn, answers, n);
    var us := AnswerTimes(jsmn, answers);
    assert forall j :: 0 <= j <= i ==> us[..n][j] == us[j];
  }

  lemma AllGoodPrefix(jsmn: Tokenizer, answers: seq<Answer>, n: nat)
    requires n <= |answers| && forall i :: 0 <= i < n ==> GoodAnswer(jsmn, answers, i)
    ensures AllGood(jsmn, answers[..n])
  {
    forall i | 0 <= i < n
      ensures GoodAnswer(jsmn, answers[..n], i)
    {
      GoodPrefix(jsmn, answers, n, i);
    }
  }

  /** What was published are the records, with the times that the filter lets through. */
  lemma {:induction false} PublishedAreFresh(jsmn: Tokenizer, answers: seq<Answer>)
    requires AllGood(jsmn, answers)
    ensures var us := AnswerTimes(jsmn, answers);
            var r := RecordIndices(us, 0);
            && |Published(jsmn, answers)| == |Fresh(us, 0)| == |r|
            && forall i :: 0 <= i < |r| ==>
                 && r[i] < |answers| && answers[r[i]].Body? && Published(jsmn, answers)[i] == answers[r[i]].text
                 && Fresh(us, 0)[i] == us[r[i]]
  {
    FreshIsRecords(AnswerTimes(jsmn, answers), 0);
    if answers != [] {
      var n := |answers| - 1;
      AllGoodPrefix(jsmn, answers, n);
      TimesOfPrefix(jsmn, answers, n);
      PublishedAreFresh(jsmn, answers[..n]);
      assert GoodAnswer(jsmn, answers, n);
    }
  }

  /** One good answer after good ones. */
  lemma GoodTurnCrawl(jsmn: Tokenizer, answers: seq<Answer>, c: Crawler)
    requires answers != [] && GoodAnswer(jsmn, answers, |answers| - 1) && Turns(c)
    requires c.updated == Floor(AnswerTimes(jsmn, answers[..|answers| - 1]), 0)
    ensures var (c', sent) := Crawl(jsmn, c, answers[|answers| - 1]);
            && c'.running && c'.budget == c.budget - 1 && c'.updated == Floor(AnswerTimes(jsmn, answers), 0)
            && Published(jsmn, answers) == Published(jsmn, answers[..|answers| - 1]) + sent
  {
    TimesOfPrefix(jsmn, answers, |answers| - 1);
    LastIsRecord(AnswerTimes(jsmn, answers), 0);
  }

  /** Good answers are all polled, and the fresh ones among them sent. */
  lemma {:induction false} CrawlGood(jsmn: Tokenizer, answers: seq<Answer>, budget: nat)
    requires AllGood(jsmn, answers) && budget >= |answers|
    ensures var (c, sent) := CrawlAll(jsmn, Crawler(0, budget, true), answers);
            && c.running && c.budget == budget - |answers| && c.updated == Floor(AnswerTimes(jsmn, answers), 0)
            && sent == Published(jsmn, answers)
  {
    if answers != [] {
      var n := |answers| - 1;
      AllGoodPrefix(jsmn, answers, n);
      CrawlGood(jsmn, answers[..n], budget);
      GoodTurnCrawl(jsmn, answers, CrawlAll(jsmn, Crawler(0, budget, true), answers[..n]).0);
    }
  }

  /** The first answer that is not good ends the crawler, and nothing is sent for it. */
  lemma BadTurnCrawl(jsmn: Tokenizer, answers: seq<Answer>, n: nat, c: Crawler)
    requires n < |answers| && !GoodAnswer(jsmn, answers, n) && Turns(c)
    requires c.updated == Floor(AnswerTimes(jsmn, answers[..n]), 0)
    ensures !Crawl(jsmn, c, answers[n]).0.running && Crawl(jsmn, c, answers[n]).1 == []
  {
    var us := AnswerTimes(jsmn, answers);
    TimesOfPrefix(jsmn, answers, n);
    TimesOfPrefix(jsmn, answers, n + 1);
    assert us[..n + 1][..n] == us[..n];
    LastIsRecord(us[..n + 1], 0);
    assert forall j :: 0 <= j <= n ==> us[..n + 1][j] == us[j];
  }

  /** A turn that ends the crawler without sending ends it for good. */
  lemma EndsThere(jsmn: Tokenizer, start: Crawler, answers: seq<Answer>, n: nat, c: Crawler, sent: seq<CString>)
    requires n < |answers| && CrawlAll(jsmn, start, answers[..n]) == (c, sent)
    requires !Crawl(jsmn, c, answers[n]).0.running && Crawl(jsmn, c, answers[n]).1 == []
    ensures CrawlAll(jsmn, start, answers) == (Crawl(jsmn, c, answers[n]).0, sent)
  {
    CrawlNext(jsmn, start, answers, n);
    assert sent + [] == sent;
    CrawlStopped(jsmn, start, answers, n + 1);
  }

  lemma CrawlBad(jsmn: Tokenizer, answers: seq<Answer>, n: nat, budget: nat)
    requires n < |answers| <= budget && !GoodAnswer(jsmn, answers, n)
    requires forall i :: 0 <= i < n ==> GoodAnswer(jsmn, answers, i)
    ensures var (c, sent) := CrawlAll(jsmn, Crawler(0, budget, true), answers);
            !c.running && sent == Published(jsmn, answers[..n])
  {
    AllGoodPrefix(jsmn, answers, n);
    CrawlGood(jsmn, answers[..n], budget);
    var (c, sent) := CrawlAll(jsmn, Crawler(0, budget, true), answers[..n]);
    BadTurnCrawl(jsmn, answers, n, c);
    EndsThere(jsmn, Crawler(0, budget, true), answers, n, c, sent);
  }

  /** How many answers are good before the first that is not. */
  ghost function GoodCount(jsmn: Tokenizer, answers: seq<Answer>, from: nat): (n: nat)
    requires from <= |answers|
    decreases |answers| - from
    ensures from <= n <= |answers| && forall i :: from <= i < n ==> GoodAnswer(jsmn, answers, i)
    ensures n < |answers| ==> !GoodAnswer(jsmn, answers, n)
  {
    if from == |answers| || !GoodAnswer(jsmn, answers, from) then from else GoodCount(jsmn, answers, from + 1)
  }

  /** The crawler runs through its budget exactly when every answer parses and the bus takes
      every record among them; what it sends are the records before the first answer that is
      not good. */
  lemma CrawlExactly(jsmn: Tokenizer, answers: seq<Answer>)
    ensures var (c, sent) := CrawlAll(jsmn, Crawler(0, |answers|, true), answers);
            && (c.running <==> AllGood(jsmn, answers)) && (c.running ==> c.budget == 0)
            && sent == Published(jsmn, answers[..GoodCount(jsmn, answers, 0)])
            && (c.running ==> sent == Published(jsmn, answers))
  {
    var n := GoodCount(jsmn, answers, 0);
    if n == |answers| {
      assert answers[..n] == answers;
      CrawlGood(jsmn, answers, |answers|);
    } else {
      CrawlBad(jsmn, answers, n, |answers|);
    }
  }

  /** The call of the parser and the test of its result, as both loops have it. */
  method Parse(jsmn: Tokenizer, text: CString, junk: Ticker) returns (ok: bool, tick: Ticker)
    ensures ok <==> ParseTicker(jsmn, text, junk).Extracted?
    ensures ok ==> ParseTicker(jsmn, text, junk) == Extracted(tick)
  {
    var data := new TickerData(junk);
    var ret, overran := ParseBtceTicker(jsmn, text, data);
    ok, tick := !overran && ret == EOK, data.Value();
  }

  /** The body of the crawler's loop; the result says whether the loop goes on. */
  method CrawlTurn(jsmn: Tokenizer, updated: CInt, ghost budget: nat, answer: Answer, channel: Channel)
      returns (goesOn: bool, updated': CInt)
    requires budget > 0
    modifies channel
    ensures var (c, sent) := Crawl(jsmn, Crawler(updated, budget, true), answer);
            && goesOn == c.running && updated' == c.updated && (goesOn ==> c.budget == budget - 1)
            && channel.queue == old(channel.queue) + Wires(sent)
  {
    updated' := updated;
    if answer.NoAnswer? {
      return false, updated;
    }
    var ok, tick := Parse(jsmn, answer.text, answer.junk);
    if !ok {
      return false, updated;
    }
    if tick.updated > updated {
      updated' := tick.updated;
      var chunk := Wire(answer.text);
      assert chunk[..|answer.text| + 1] == chunk;
      var ret := NbusSend(channel, chunk, |answer.text| + 1, answer.accepted);
      if ret != EOK {
        return false, updated';
      }
      assert Wires([answer.text]) == [chunk];
    }
    goesOn := true;
  }

  /** After `n` answers the crawler is `c` and has put `sent` on the bus. */
  ghost predicate Crawled(jsmn: Tokenizer, answers: seq<Answer>, n: nat, c: Crawler, sent: seq<CString>,
                          before: seq<string>, after: seq<string>)
  {
    && n <= |answers| && CrawlAll(jsmn, Crawler(0, |answers|, true), answers[..n]) == (c, sent)
    && after == before + Wires(sent)
  }

  lemma CrawledOneMore(jsmn: Tokenizer, answers: seq<Answer>, n: nat, c: Crawler, sent: seq<CString>,
                       before: seq<string>, middle: seq<string>, after: seq<string>)
    requires Crawled(jsmn, answers, n, c, sent, before, middle) && n < |answers|
    requires after == middle + Wires(Crawl(jsmn, c, answers[n]).1)
    ensures var (c', more) := Crawl(jsmn, c, answers[n]);
            && Crawled(jsmn, answers, n + 1, c', sent + more, before, after)
            && (!c'.running ==> Crawled(jsmn, answers, |answers|, c', sent + more, before, after))
  {
    var start := Crawler(0, |answers|, true);
    var (c', more) := Crawl(jsmn, c, answers[n]);
    CrawlNext(jsmn, start, answers, n);
    WiresAppend(sent, more);
    if !c'.running {
      CrawlStopped(jsmn, start, answers, n + 1);
      assert answers[..|answers|] == answers;
    }
  }

  lemma CrawledMeans(jsmn: Tokenizer, answers: seq<Answer>, c: Crawler, sent: seq<CString>,
                     before: seq<string>, after: seq<string>)
    requires Crawled(jsmn, answers, |answers|, c, sent, before, after)
    ensures c.running <==> AllGood(jsmn, answers)
    ensures after == before + Wires(Published(jsmn, answers[..GoodCount(jsmn, answers, 0)]))
  {
    CrawlExactly(jsmn, answers);
    assert answers[..|answers|] == answers;
  }

  /** The crawler's loop on a budget of polls, one answer for each. */
  method CrawlerLoop(jsmn: Tokenizer, answers: seq<Answer>, channel: Channel)
      returns (ok: bool, ghost c: Crawler, ghost sent: seq<CString>)
    modifies channel
    ensures Crawled(jsmn, answers, |answers|, c, sent, old(channel.queue), channel.queue)
    ensures ok == c.running && (ok <==> AllGood(jsmn, answers))
    ensures channel.queue
         == old(channel.queue) + Wires(Published(jsmn, answers[..GoodCount(jsmn, answers, 0)]))
  {
    var updated: CInt := 0;
    var i := |answers|;
    c, sent := Crawler(0, |answers|, true), [];
    while i > 0
      invariant 0 <= i <= |answers| && c == Crawler(updated, i, true)
      invariant Crawled(jsmn, answers, |answers| - i, c, sent, old(channel.queue), channel.queue)
    {
      var answer := answers[|answers| - i];
      ghost var middle := channel.queue;
      ok, updated := CrawlTurn(jsmn, updated, i, answer, channel);
      CrawledOneMore(jsmn, answers, |answers| - i, c, sent, old(channel.queue), middle, channel.queue);
      ghost var (c', more) := Crawl(jsmn, c, answer);
      c, sent := c', sent + more;
      if !ok {
        CrawledMeans(jsmn, answers, c, sent, old(channel.queue), channel.queue);
        return;
      }
      i := i - 1;
    }
    CrawledMeans(jsmn, answers, c, sent, old(channel.queue), channel.queue);
    ok := true;
  }

  lemma CrawlNext(jsmn: Tokenizer, c: Crawler, answers: seq<Answer>, n: nat)
    requires n < |answers|
    ensures var (c', sent) := CrawlAll(jsmn, c, answers[..n]);
            var (c'', more) := Crawl(jsmn, c', answers[n]);
            CrawlAll(jsmn, c, answers[..n + 1]) == (c'', sent + more)
  {
    assert answers[..n + 1][..n] == answers[..n];
  }

  /** A crawler that has stopped stays as it is. */
  lemma {:induction false} CrawlStopped(jsmn: Tokenizer, c: Crawler, answers: seq<Answer>, n: nat)
    requires n <= |answers| && !CrawlAll(jsmn, c, answers[..n]).0.running
    decreases |answers| - n
    ensures CrawlAll(jsmn, c, answers) == CrawlAll(jsmn, c, answers[..n])
  {
    if n < |answers| {
      CrawlNext(jsmn, c, answers, n);
      assert CrawlAll(jsmn, c, answers[..n]).1 + [] == CrawlAll(jsmn, c, answers[..n]).1;
      CrawlStopped(jsmn, c, answers, n + 1);
    } else {
      assert answers[..n] == answers;
    }
  }

  // ----- the collector's loop -----------------------------------------------------------

  /** What reaches the collector's socket before a turn, and how the turn goes. */
  datatype Slot = Slot(arrivals: seq<string>, chance: Chance)

  function CollectAll(jsmn: Tokenizer, c: Collector, inbox: seq<string>, slots: seq<Slot>): (Collector, seq<string>) {
    if slots == [] then (c, inbox)
    else
      OneSlot(jsmn, CollectAll(jsmn, c, inbox, slots[..|slots| - 1]), slots[|slots| - 1])
  }

  function OneSlot(jsmn: Tokenizer, state: (Collector, seq<string>), slot: Slot): (Collector, seq<string>) {
    var (c, inbox) := state;
    if !c.running then state
    else
      var waiting := inbox + slot.arrivals;
      (Collect(jsmn, c, waiting, slot.chance), AfterTurn(c, waiting, slot.chance))
  }

  /** The inbox after a turn. */
  function AfterTurn(c: Collector, inbox: seq<string>, x: Chance): seq<string> {
    if Takes(c, inbox, x) then inbox[1..] else inbox
  }

  // ----- exactly what the collector does ------------------------------------------------

  /** Everything that has reached the socket by the last of the turns. */
  function Arrived(inbox: seq<string>, slots: seq<Slot>): seq<string> {
    if slots == [] then inbox else Arrived(inbox, slots[..|slots| - 1]) + slots[|slots| - 1].arrivals
  }

  /** How many messages these turns take: one a turn, when there is one that is not taken. */
  function Count(inbox: seq<string>, slots: seq<Slot>): (c: nat)
    ensures c <= |Arrived(inbox, slots)|
  {
    if slots == [] then 0
    else
      var c := Count(inbox, slots[..|slots| - 1]);
      if c < |Arrived(inbox, slots)| then c + 1 else c
  }

  /** The message for the last of the turns, if there is one. */
  function LastMessage(inbox: seq<string>, slots: seq<Slot>): Option<string>
    requires slots != []
  {
    var c := Count(inbox, slots[..|slots| - 1]);
    if c < |Arrived(inbox, slots)| then Some(Arrived(inbox, slots)[c]) else None
  }

  /** The last of the turns is asked without a fault, and its message, if there is one, parses
      and is stored. */
  predicate GoodTurn(jsmn: Tokenizer, inbox: seq<string>, slots: seq<Slot>)
    requires slots != []
  {
    var x := slots[|slots| - 1].chance;
    && x.delivery.Normal?
    && match LastMessage(inbox, slots)
       case None => true
       case Some(m) => ParseTicker(jsmn, UpToNul(m), x.junk).Extracted? && x.insertion.Inserts?
  }

  predicate GoodAt(jsmn: Tokenizer, inbox: seq<string>, slots: seq<Slot>, i: nat)
    requires i < |slots|
  {
    GoodTurn(jsmn, inbox, slots[..i + 1])
  }

  ghost predicate AllTurnsGood(jsmn: Tokenizer, inbox: seq<string>, slots: seq<Slot>) {
    forall i :: 0 <= i < |slots| ==> GoodAt(jsmn, inbox, slots, i)
  }

  /** The tickers of the messages that the turns take, in order. */
  function Rows(jsmn: Tokenizer, inbox: seq<string>, slots: seq<Slot>): seq<Ticker> {
    if slots == [] then []
    else
      var before := Rows(jsmn, inbox, slots[..|slots| - 1]);
      match LastMessage(inbox, slots)
      case None => before
      case Some(m) =>
        match ParseTicker(jsmn, UpToNul(m), slots[|slots| - 1].chance.junk)
        case Extracted(t) => before + [t]
        case _ => before
  }

  lemma AllTurnsGoodBefore(jsmn: Tokenizer, inbox: seq<string>, slots: seq<Slot>)
    requires slots != [] && AllTurnsGood(jsmn, inbox, slots)
    ensures AllTurnsGood(jsmn, inbox, slots[..|slots| - 1]) && GoodTurn(jsmn, inbox, slots)
  {
    var before := slots[..|slots| - 1];
    forall i | 0 <= i < |before|
      ensures GoodAt(jsmn, inbox, before, i)
    {
      assert GoodAt(jsmn, inbox, slots, i) && before[..i + 1] == slots[..i + 1];
    }
    assert GoodAt(jsmn, inbox, slots, |slots| - 1) && slots[..|slots|] == slots;
  }

  /** One row for every message taken. */
  lemma {:induction false} RowsMatchCount(jsmn: Tokenizer, inbox: seq<string>, slots: seq<Slot>)
    requires AllTurnsGood(jsmn, inbox, slots)
    ensures |Rows(jsmn, inbox, slots)| == Count(inbox, slots)
  {
    if slots != [] {
      AllTurnsGoodBefore(jsmn, inbox, slots);
      RowsMatchCount(jsmn, inbox, slots[..|slots| - 1]);
    }
  }

  /** The collector after some turns, and what waits. */
  predicate After(jsmn: Tokenizer, inbox: seq<string>, slots: seq<Slot>, budget: nat, state: (Collector, seq<string>)) {
    && budget >= |slots| && state.0 == Collector(Rows(jsmn, inbox, slots), budget - |slots|, true)
    && state.1 == Arrived(inbox, slots)[Count(inbox, slots)..]
  }

  /** What waits at the last of the turns starts with its message. */
  lemma Waiting(inbox: seq<string>, slots: seq<Slot>, rest: seq<string>)
    requires slots != []
    requires rest == Arrived(inbox, slots[..|slots| - 1])[Count(inbox, slots[..|slots| - 1])..]
    ensures var waiting := rest + slots[|slots| - 1].arrivals;
            && waiting == Arrived(inbox, slots)[Count(inbox, slots[..|slots| - 1])..]
            && LastMessage(inbox, slots) == (if waiting == [] then None else Some(waiting[0]))
            && (if waiting == [] then waiting else waiting[1..]) == Arrived(inbox, slots)[Count(inbox, slots)..]
  {
  }

  lemma GoodSlot(jsmn: Tokenizer, inbox: seq<string>, slots: seq<Slot>, budget: nat, state: (Collector, seq<string>))
    requires slots != [] && budget >= |slots| && After(jsmn, inbox, slots[..|slots| - 1], budget, state)
    requires GoodTurn(jsmn, inbox, slots)
    ensures After(jsmn, inbox, slots, budget, OneSlot(jsmn, state, slots[|slots| - 1]))
  {
    Waiting(inbox, slots, state.1);
  }

  lemma {:induction false} CollectGood(jsmn: Tokenizer, inbox: seq<string>, slots: seq<Slot>, budget: nat)
    requires AllTurnsGood(jsmn, inbox, slots) && budget >= |slots|
    ensures After(jsmn, inbox, slots, budget, CollectAll(jsmn, Collector([], budget, true), inbox, slots))
  {
    if slots != [] {
      AllTurnsGoodBefore(jsmn, inbox, slots);
      CollectGood(jsmn, inbox, slots[..|slots| - 1], budget);
      GoodSlot(jsmn, inbox, slots, budget, CollectAll(jsmn, Collector([], budget, true), inbox, slots[..|slots| - 1]));
    }
  }

  /** A turn that is not good ends the collector. A fault leaves everything as it was; else a
      message is gone, and its row is there if only the report of success is missing. */
  predicate Ended(jsmn: Tokenizer, inbox: seq<string>, slots: seq<Slot>, state: (Collector, seq<string>))
    requires slots != []
  {
    var x := slots[|slots| - 1].chance;
    var before := slots[..|slots| - 1];
    && !state.0.running
    && state.0.stored == Rows(jsmn, inbox,
                              if x.delivery.Normal? && x.insertion.InsertsThenFails? then slots else before)
    && state.1 == Arrived(inbox, slots)[if x.delivery.Normal? then Count(inbox, slots) else Count(inbox, before)..]
  }

  lemma BadSlot(jsmn: Tokenizer, inbox: seq<string>, slots: seq<Slot>, budget: nat, state: (Collector, seq<string>))
    requires slots != [] && budget >= |slots| && After(jsmn, inbox, slots[..|slots| - 1], budget, state)
    requires !GoodTurn(jsmn, inbox, slots)
    ensures Ended(jsmn, inbox, slots, OneSlot(jsmn, state, slots[|slots| - 1]))
  {
    Waiting(inbox, slots, state.1);
  }

  /** How many turns are good before the first that is not. */
  ghost function GoodTurns(jsmn: Tokenizer, inbox: seq<string>, slots: seq<Slot>, from: nat): (n: nat)
    requires from <= |slots|
    decreases |slots| - from
    ensures from <= n <= |slots| && forall i :: from <= i < n ==> GoodAt(jsmn, inbox, slots, i)
    ensures n < |slots| ==> !GoodAt(jsmn, inbox, slots, n)
  {
    if from == |slots| || !GoodAt(jsmn, inbox, slots, from) then from
    else GoodTurns(jsmn, inbox, slots, from + 1)
  }

  /** The collector runs through its budget exactly when no receive fails and every message
      that it takes parses and is stored; otherwise it ends at the first turn where not. */
  lemma CollectExactly(jsmn: Tokenizer, inbox: seq<string>, slots: seq<Slot>)
    ensures var state := CollectAll(jsmn, Collector([], |slots|, true), inbox, slots);
            var n := GoodTurns(jsmn, inbox, slots, 0);
            && (state.0.running <==> AllTurnsGood(jsmn, inbox, slots))
            && if n == |slots| then After(jsmn, inbox, slots, |slots|, state)
               else Ended(jsmn, inbox, slots[..n + 1], state)
  {
    var n := GoodTurns(jsmn, inbox, slots, 0);
    if n == |slots| {
      CollectGood(jsmn, inbox, slots, |slots|);
    } else {
      CollectBad(jsmn, inbox, slots, n);
    }
  }

  lemma CollectBad(jsmn: Tokenizer, inbox: seq<string>, slots: seq<Slot>, n: nat)
    requires n < |slots| && !GoodAt(jsmn, inbox, slots, n)
    requires forall i :: 0 <= i < n ==> GoodAt(jsmn, inbox, slots, i)
    ensures Ended(jsmn, inbox, slots[..n + 1], CollectAll(jsmn, Collector([], |slots|, true), inbox, slots))
  {
    var start := Collector([], |slots|, true);
    forall i | 0 <= i < n
      ensures GoodAt(jsmn, inbox, slots[..n], i)
    {
      assert GoodAt(jsmn, inbox, slots, i) && slots[..n][..i + 1] == slots[..i + 1];
    }
    assert slots[..n + 1][..n] == slots[..n];
    CollectGood(jsmn, inbox, slots[..n], |slots|);
    BadSlot(jsmn, inbox, slots[..n + 1], |slots|, CollectAll(jsmn, start, inbox, slots[..n]));
    CollectNext(jsmn, start, inbox, slots, n);
    CollectStopped(jsmn, start, inbox, slots, n + 1);
  }

  /** The body of the collector's loop. */
  method CollectTurn(jsmn: Tokenizer, stored: seq<Ticker>, ghost budget: nat, chance: Chance, channel: Channel)
      returns (goesOn: bool, stored': seq<Ticker>)
    requires budget > 0
    modifies channel
    ensures var c := Collector(stored, budget, true);
            var c' := Collect(jsmn, c, old(channel.queue), chance);
            && goesOn == c'.running && stored' == c'.stored && (goesOn ==> c'.budget == budget - 1)
            && channel.queue == AfterTurn(c, old(channel.queue), chance)
  {
    stored' := stored;
    var chunk;
    var ret;
    ghost var inbox := channel.queue;
    ret, chunk := NbusReceive(channel, Chunk([NUL], 1), chance.delivery);
    if ret != EOK && ret != EAGAIN {
      return false, stored;
    }
    if ret == EAGAIN {
      return true, stored;
    }
    var text := UpToNul(chunk.data);
    UpToNulExact(UpToNul(inbox[0]), [NUL]);
    var ok, tick := Parse(jsmn, text, chance.junk);
    if !ok {
      return false, stored;
    }
    if chance.insertion.FailsToInsert? {
      return false, stored;
    }
    stored' := stored + [tick];
    goesOn := chance.insertion.Inserts?;
  }

  /** After `n` slots the collector is `c` and `inbox` is what waits. */
  ghost predicate Collected(
    jsmn: Tokenizer, slots: seq<Slot>, n: nat, c: Collector, before: seq<string>, inbox: seq<string>)
  {
    n <= |slots| && CollectAll(jsmn, Collector([], |slots|, true), before, slots[..n]) == (c, inbox)
  }

  lemma CollectedOneMore(
    jsmn: Tokenizer, slots: seq<Slot>, n: nat, c: Collector, before: seq<string>, inbox: seq<string>)
    requires Collected(jsmn, slots, n, c, before, inbox) && n < |slots| && c.running
    ensures var waiting := inbox + slots[n].arrivals;
            var c', inbox' := Collect(jsmn, c, waiting, slots[n].chance), AfterTurn(c, waiting, slots[n].chance);
            && Collected(jsmn, slots, n + 1, c', before, inbox')
            && (!c'.running ==> Collected(jsmn, slots, |slots|, c', before, inbox'))
  {
    var start := Collector([], |slots|, true);
    CollectNext(jsmn, start, before, slots, n);
    if !CollectAll(jsmn, start, before, slots[..n + 1]).0.running {
      CollectStopped(jsmn, start, before, slots, n + 1);
      assert slots[..|slots|] == slots;
    }
  }

  lemma CollectedMeans(jsmn: Tokenizer, slots: seq<Slot>, c: Collector, before: seq<string>, inbox: seq<string>)
    requires Collected(jsmn, slots, |slots|, c, before, inbox)
    ensures c.running <==> AllTurnsGood(jsmn, before, slots)
    ensures c.running ==>
              c.stored == Rows(jsmn, before, slots) && inbox == Arrived(before, slots)[Count(before, slots)..]
  {
    CollectExactly(jsmn, before, slots);
    assert slots[..|slots|] == slots;
  }

  /** The collector's loop on a budget of turns. */
  method CollectorLoop(jsmn: Tokenizer, slots: seq<Slot>, channel: Channel)
      returns (ok: bool, stored: seq<Ticker>, ghost c: Collector)
    modifies channel
    ensures Collected(jsmn, slots, |slots|, c, old(channel.queue), channel.queue)
    ensures ok == c.running && stored == c.stored && (ok <==> AllTurnsGood(jsmn, old(channel.queue), slots))
    ensures ok ==>
              && stored == Rows(jsmn, old(channel.queue), slots)
              && channel.queue == Arrived(old(channel.queue), slots)[Count(old(channel.queue), slots)..]
  {
    stored := [];
    var i := |slots|;
    c := Collector([], |slots|, true);
    while i > 0
      invariant 0 <= i <= |slots| && c == Collector(stored, i, true)
      invariant Collected(jsmn, slots, |slots| - i, c, old(channel.queue), channel.queue)
    {
      var slot := slots[|slots| - i];
      CollectedOneMore(jsmn, slots, |slots| - i, c, old(channel.queue), channel.queue);
      channel.queue := channel.queue + slot.arrivals;
      c := Collect(jsmn, c, channel.queue, slot.chance);
      ok, stored := CollectTurn(jsmn, stored, i, slot.chance, channel);
      if !ok {
        CollectedMeans(jsmn, slots, c, old(channel.queue), channel.queue);
        return;
      }
      i := i - 1;
    }
    CollectedMeans(jsmn, slots, c, old(channel.queue), channel.queue);
    ok := true;
  }

  lemma CollectNext(jsmn: Tokenizer, c: Collector, inbox: seq<string>, slots: seq<Slot>, n: nat)
    requires n < |slots|
    ensures CollectAll(jsmn, c, inbox, slots[..n + 1])
         == OneSlot(jsmn, CollectAll(jsmn, c, inbox, slots[..n]), slots[n])
  {
    assert slots[..n + 1][..n] == slots[..n];
  }

  lemma {:induction false} CollectStopped(jsmn: Tokenizer, c: Collector, inbox: seq<string>, slots: seq<Slot>, n: nat)
    requires n <= |slots| && !CollectAll(jsmn, c, inbox, slots[..n]).0.running
    decreases |slots| - n
    ensures CollectAll(jsmn, c, inbox, slots) == CollectAll(jsmn, c, inbox, slots[..n])
  {
    if n < |slots| {
      CollectNext(jsmn, c, inbox, slots, n);
      CollectStopped(jsmn, c, inbox, slots, n + 1);
    } else {
      assert slots[..n] == slots;
    }
  }
}
