/**
 The crawler, the bus and the collector running together, in every order.

 The crawler sends what is newer than all it has seen, the bus delivers in order and may
 lose messages, and the collector stores what arrives. Every interleaving of their turns
 and of losses is a list of events, and `Run` is the state after it.
 */
module Interleaving {
  import opened Common
  import opened Text
  import opened Bus
  import opened Numbers
  import opened Tokens
  import opened Ticker
  import opened Pipeline
  import opened Freshness

  import Companions

  /** A poll that was parsed. */
  datatype Sample = Sample(text: CString, tick: Ticker)

  /** A message on the bus, with the number of the poll it came from. */
  datatype Packet = Packet(bytes: string, poll: nat)

  /** `polled`, `sent` and `taken` are history: every parsed poll, the numbers of those that
      were sent, and every message the collector has taken off the bus. */
  datatype System = System(
    crawler: Crawler, polled: seq<Sample>, sent: seq<nat>,
    transit: seq<Packet>, taken: seq<Packet>, collector: Collector)

  /** A turn of either loop, or the loss of a message on the way. A collector's turn may come
      before the messages in transit have arrived. */
  datatype Event = Crawls(answer: Answer) | Collects(arrived: bool, chance: Chance) | Loses(k: nat)

  function Init(polls: nat, turns: nat): System {
    System(Crawler(0, polls, true), [], [], [], [], Collector([], turns, true))
  }

  function Bytes(packets: seq<Packet>): seq<string> {
    seq(|packets|, i requires 0 <= i < |packets| => packets[i].bytes)
  }

  function Inbox(s: System, arrived: bool): seq<string> {
    if arrived then Bytes(s.transit) else []
  }

  function StepCrawler(jsmn: Tokenizer, s: System, a: Answer): System
    requires Turns(s.crawler)
  {
    var (c, texts) := Crawl(jsmn, s.crawler, a);
    var n := |s.polled|;
    var s' := s.(crawler := c, polled := s.polled + Samples(jsmn, a));
    if texts == [] then s'
    else s'.(sent := s.sent + [n], transit := s.transit + [Packet(Wire(texts[0]), n)])
  }

  function Samples(jsmn: Tokenizer, a: Answer): seq<Sample> {
    if a.NoAnswer? then []
    else
      match ParseTicker(jsmn, a.text, a.junk)
      case Extracted(t) => [Sample(a.text, t)]
      case _ => []
  }

  function StepCollector(jsmn: Tokenizer, s: System, arrived: bool, x: Chance): System {
    var inbox := Inbox(s, arrived);
    var s' := s.(collector := Collect(jsmn, s.collector, inbox, x));
    if !Takes(s.collector, inbox, x) then s'
    else s'.(taken := s.taken + [s.transit[0]], transit := s.transit[1..])
  }

  function Step(jsmn: Tokenizer, s: System, e: Event): System {
    match e
    case Crawls(a) => if Turns(s.crawler) then StepCrawler(jsmn, s, a) else s
    case Collects(arrived, x) => StepCollector(jsmn, s, arrived, x)
    case Loses(k) => if k < |s.transit| then s.(transit := s.transit[..k] + s.transit[k + 1..]) else s
  }

  function Run(jsmn: Tokenizer, s: System, events: seq<Event>): System {
    if events == [] then s
    else Step(jsmn, Run(jsmn, s, events[..|events| - 1]), events[|events| - 1])
  }

  // ----- the invariant ------------------------------------------------------------------

  function Times(polled: seq<Sample>): seq<int> {
    seq(|polled|, i requires 0 <= i < |polled| => polled[i].tick.updated as int)
  }

  /** Everything taken off the bus, and then everything still on it. */
  function Pipe(s: System): seq<Packet> {
    s.taken + s.transit
  }

  /** Some memory content makes the text parse to the ticker. */
  ghost predicate Gives(jsmn: Tokenizer, text: string, t: Ticker) {
    exists junk :: ParseTicker(jsmn, text, junk) == Extracted(t)
  }

  ghost predicate CrawlerOk(jsmn: Tokenizer, s: System) {
    && (forall i :: 0 <= i < |s.polled| ==> Gives(jsmn, s.polled[i].text, s.polled[i].tick))
    && s.sent <= RecordIndices(Times(s.polled), 0)
    && (s.crawler.running ==>
          s.crawler.updated == Floor(Times(s.polled), 0) && s.sent == RecordIndices(Times(s.polled), 0))
  }

  /** Packets carry the texts of sent polls, in the order of the polls. */
  ghost predicate PipeOk(pipe: seq<Packet>, sent: seq<nat>, polled: seq<Sample>) {
    && (forall i :: 0 <= i < |pipe| ==> IsSent(pipe[i], sent, polled))
    && (forall i, j :: 0 <= i < j < |pipe| ==> pipe[i].poll < pipe[j].poll)
  }

  ghost predicate IsSent(p: Packet, sent: seq<nat>, polled: seq<Sample>) {
    p.poll in sent && p.poll < |polled| && p.bytes == Wire(polled[p.poll].text)
  }

  /** The rows are the parsed texts of what was taken, one for each, except that the last one
      may be missing once the collector has stopped. */
  ghost predicate StoreOk(jsmn: Tokenizer, taken: seq<Packet>, c: Collector) {
    && |c.stored| <= |taken| <= |c.stored| + 1
    && (c.running ==> |taken| == |c.stored|)
    && (forall i :: 0 <= i < |c.stored| ==> Gives(jsmn, UpToNul(taken[i].bytes), c.stored[i]))
  }

  ghost predicate Ok(jsmn: Tokenizer, s: System) {
    && CrawlerOk(jsmn, s)
    && PipeOk(Pipe(s), s.sent, s.polled)
    && StoreOk(jsmn, s.taken, s.collector)
  }

  lemma InitOk(jsmn: Tokenizer, polls: nat, turns: nat)
    ensures Ok(jsmn, Init(polls, turns))
  {
  }

  lemma TimesAppend(polled: seq<Sample>, x: Sample)
    ensures Times(polled + [x]) == Times(polled) + [x.tick.updated as int]
  {
  }

  /** A new poll is kept and sent exactly when it is a record. */
  lemma NewPoll(us: seq<int>, u: int)
    ensures Floor(us + [u], 0) == if u > Floor(us, 0) then u else Floor(us, 0)
    ensures RecordIndices(us + [u], 0) == RecordIndices(us, 0) + if u > Floor(us, 0) then [|us|] else []
  {
    assert (us + [u])[..|us|] == us;
    LastIsRecord(us + [u], 0);
  }

  lemma CrawlerStepOk(jsmn: Tokenizer, s: System, a: Answer)
    requires Ok(jsmn, s) && Turns(s.crawler)
    ensures Ok(jsmn, StepCrawler(jsmn, s, a))
  {
    var s' := StepCrawler(jsmn, s, a);
    if a.Body? && ParseTicker(jsmn, a.text, a.junk).Extracted? {
      var t := ParseTicker(jsmn, a.text, a.junk).ticker;
      ParsedPollOk(jsmn, s, a, t);
      SendOk(s, s', Sample(a.text, t));
    } else {
      assert s'.polled == s.polled;
      assert Pipe(s') == Pipe(s);
    }
  }

  lemma ParsedPollOk(jsmn: Tokenizer, s: System, a: Answer, t: Ticker)
    requires CrawlerOk(jsmn, s) && Turns(s.crawler) && a.Body? && ParseTicker(jsmn, a.text, a.junk) == Extracted(t)
    ensures CrawlerOk(jsmn, StepCrawler(jsmn, s, a))
  {
    assert Gives(jsmn, a.text, t);
    TimesAppend(s.polled, Sample(a.text, t));
    NewPoll(Times(s.polled), t.updated);
  }

  lemma SendOk(s: System, s': System, x: Sample)
    requires PipeOk(Pipe(s), s.sent, s.polled) && s.sent == RecordIndices(Times(s.polled), 0)
    requires s'.polled == s.polled + [x] && s'.taken == s.taken
    requires || (s'.sent == s.sent && s'.transit == s.transit)
             || (s'.sent == s.sent + [|s.polled|] && s'.transit == s.transit + [Packet(Wire(x.text), |s.polled|)])
    ensures PipeOk(Pipe(s'), s'.sent, s'.polled)
  {
    if s'.sent == s.sent {
      assert Pipe(s') == Pipe(s);
    } else {
      assert Pipe(s') == Pipe(s) + [Packet(Wire(x.text), |s.polled|)];
    }
  }

  lemma CollectorStepOk(jsmn: Tokenizer, s: System, arrived: bool, x: Chance)
    requires Ok(jsmn, s)
    ensures Ok(jsmn, StepCollector(jsmn, s, arrived, x))
  {
    var s' := StepCollector(jsmn, s, arrived, x);
    var inbox := Inbox(s, arrived);
    if Takes(s.collector, inbox, x) {
      assert inbox[0] == s.transit[0].bytes;
      TakeOk(jsmn, s.taken, s.collector, inbox, x, s.transit[0]);
      TakeKeepsPipe(s.taken, s.transit);
    } else {
      IdleOk(jsmn, s.taken, s.collector, inbox, x);
    }
  }

  lemma TakeKeepsPipe(taken: seq<Packet>, transit: seq<Packet>)
    requires transit != []
    ensures (taken + [transit[0]]) + transit[1..] == taken + transit
  {
  }

  lemma IdleOk(jsmn: Tokenizer, taken: seq<Packet>, c: Collector, inbox: seq<string>, x: Chance)
    requires StoreOk(jsmn, taken, c) && !Takes(c, inbox, x)
    ensures StoreOk(jsmn, taken, Collect(jsmn, c, inbox, x))
  {
  }

  lemma TakeOk(jsmn: Tokenizer, taken: seq<Packet>, c: Collector, inbox: seq<string>, x: Chance, p: Packet)
    requires StoreOk(jsmn, taken, c) && Takes(c, inbox, x) && p.bytes == inbox[0]
    ensures StoreOk(jsmn, taken + [p], Collect(jsmn, c, inbox, x))
  {
    var text := UpToNul(p.bytes);
    if ParseTicker(jsmn, text, x.junk).Extracted? {
      assert Gives(jsmn, text, ParseTicker(jsmn, text, x.junk).ticker);
    }
  }

  lemma LossOk(jsmn: Tokenizer, s: System, k: nat)
    requires Ok(jsmn, s)
    ensures Ok(jsmn, Step(jsmn, s, Loses(k)))
  {
    if k < |s.transit| {
      LossInPipe(s.taken, s.transit, k);
      DropOk(Pipe(s), |s.taken| + k, s.sent, s.polled);
      TransitOk(jsmn, s, s.transit[..k] + s.transit[k + 1..]);
    }
  }

  lemma TransitOk(jsmn: Tokenizer, s: System, transit: seq<Packet>)
    requires Ok(jsmn, s) && PipeOk(s.taken + transit, s.sent, s.polled)
    ensures Ok(jsmn, s.(transit := transit))
  {
  }

  lemma LossInPipe(taken: seq<Packet>, transit: seq<Packet>, k: nat)
    requires k < |transit|
    ensures var pipe, n := taken + transit, |taken| + k;
            taken + (transit[..k] + transit[k + 1..]) == pipe[..n] + pipe[n + 1..]
  {
  }

  lemma DropOk(pipe: seq<Packet>, n: nat, sent: seq<nat>, polled: seq<Sample>)
    requires PipeOk(pipe, sent, polled) && n < |pipe|
    ensures PipeOk(pipe[..n] + pipe[n + 1..], sent, polled)
  {
    var rest := pipe[..n] + pipe[n + 1..];
    assert forall i :: 0 <= i < |rest| ==> rest[i] == pipe[if i < n then i else i + 1];
  }

  /** Every reachable state is as `Ok` says. */
  lemma {:induction false} RunOk(jsmn: Tokenizer, s: System, events: seq<Event>)
    requires Ok(jsmn, s)
    ensures Ok(jsmn, Run(jsmn, s, events))
  {
    if events != [] {
      RunOk(jsmn, s, events[..|events| - 1]);
      var before := Run(jsmn, s, events[..|events| - 1]);
      match events[|events| - 1]
      case Crawls(a) =>
        if Turns(before.crawler) {
          CrawlerStepOk(jsmn, before, a);
        }
      case Collects(arrived, x) =>
        CollectorStepOk(jsmn, before, arrived, x);
      case Loses(k) =>
        LossOk(jsmn, before, k);
    }
  }

  // ----- safety over all runs -----------------------------------------------------------

  /** Every text that the events poll satisfies `p`. */
  ghost predicate PollsOnly(events: seq<Event>, p: string -> bool) {
    forall i :: 0 <= i < |events| && events[i].Crawls? && events[i].answer.Body? ==> p(events[i].answer.text)
  }

  ghost predicate PolledOnly(s: System, p: string -> bool) {
    forall i :: 0 <= i < |s.polled| ==> p(s.polled[i].text)
  }

  lemma {:induction false} PolledTexts(jsmn: Tokenizer, s: System, events: seq<Event>, p: string -> bool)
    requires PollsOnly(events, p) && PolledOnly(s, p)
    ensures PolledOnly(Run(jsmn, s, events), p)
  {
    if events != [] {
      var n := |events| - 1;
      assert forall i :: 0 <= i < n ==> events[..n][i] == events[i];
      PolledTexts(jsmn, s, events[..n], p);
      StepPolls(jsmn, Run(jsmn, s, events[..n]), events[n], p);
    }
  }

  lemma StepPolls(jsmn: Tokenizer, s: System, e: Event, p: string -> bool)
    requires PolledOnly(s, p) && (e.Crawls? && e.answer.Body? ==> p(e.answer.text))
    ensures PolledOnly(Step(jsmn, s, e), p)
  {
  }

  /** A reachable state in which every polled text satisfies `p`. */
  lemma Reachable(jsmn: Tokenizer, polls: nat, turns: nat, events: seq<Event>, p: string -> bool)
    requires PollsOnly(events, p)
    ensures var s := Run(jsmn, Init(polls, turns), events); Ok(jsmn, s) && PolledOnly(s, p)
  {
    InitOk(jsmn, polls, turns);
    RunOk(jsmn, Init(polls, turns), events);
    PolledTexts(jsmn, Init(polls, turns), events, p);
  }

  /** What the crawler sends are the records among its polls, and it remembers the newest. */
  lemma SentAreRecords(jsmn: Tokenizer, polls: nat, turns: nat, events: seq<Event>)
    ensures var s := Run(jsmn, Init(polls, turns), events);
            var times := Times(s.polled);
            && s.sent <= RecordIndices(times, 0)
            && (s.crawler.running ==> s.sent == RecordIndices(times, 0) && s.crawler.updated == Floor(times, 0))
  {
    InitOk(jsmn, polls, turns);
    RunOk(jsmn, Init(polls, turns), events);
  }

  /** A row and the poll it came from are parsed from one text. */
  lemma RowAndPoll(jsmn: Tokenizer, s: System, i: nat)
    requires Ok(jsmn, s) && i < |s.collector.stored|
    ensures i < |s.taken| && s.taken[i].poll < |s.polled|
    ensures var x := s.polled[s.taken[i].poll];
            Gives(jsmn, x.text, x.tick) && Gives(jsmn, x.text, s.collector.stored[i])
  {
    var p := s.taken[i];
    assert p == Pipe(s)[i];
    assert IsSent(Pipe(s)[i], s.sent, s.polled);
    UpToNulExact(s.polled[p.poll].text, [NUL]);
  }

  lemma SentIsRecord(jsmn: Tokenizer, s: System, i: nat)
    requires Ok(jsmn, s) && i < |s.taken|
    ensures s.taken[i].poll < |s.polled| && IsRecord(Times(s.polled), 0, s.taken[i].poll)
  {
    assert s.taken[i] == Pipe(s)[i];
    assert IsSent(Pipe(s)[i], s.sent, s.polled);
    RecordIndicesExactly(Times(s.polled), 0);
  }

  function StoredTimes(s: System): seq<int> {
    seq(|s.collector.stored|, i requires 0 <= i < |s.collector.stored| => s.collector.stored[i].updated as int)
  }

  function BindsUpdated(jsmn: Tokenizer): string -> bool {
    text => BindsKey(jsmn, text, UPDATED)
  }

  /** In every interleaving with any losses, if every polled text has its time, the rows'
      times increase strictly and lie above zero. */
  lemma StoredInOrder(jsmn: Tokenizer, polls: nat, turns: nat, events: seq<Event>)
    requires PollsOnly(events, BindsUpdated(jsmn))
    ensures InOrder(StoredTimes(Run(jsmn, Init(polls, turns), events)))
  {
    Reachable(jsmn, polls, turns, events, BindsUpdated(jsmn));
    RowsInOrder(jsmn, Run(jsmn, Init(polls, turns), events));
  }

  predicate InOrder(times: seq<int>) {
    Increasing(times) && forall i :: 0 <= i < |times| ==> times[i] > 0
  }

  lemma RowsInOrder(jsmn: Tokenizer, s: System)
    requires Ok(jsmn, s) && PolledOnly(s, BindsUpdated(jsmn))
    ensures InOrder(StoredTimes(s))
  {
    forall i | 0 <= i < |s.collector.stored|
      ensures StoredTimes(s)[i] > 0
    {
      RowTime(jsmn, s, i);
    }
    forall i, j | 0 <= i < j < |s.collector.stored|
      ensures StoredTimes(s)[i] < StoredTimes(s)[j]
    {
      RowTime(jsmn, s, i);
      RowTime(jsmn, s, j);
      TakenInOrder(jsmn, s, i, j);
    }
  }

  /** A row's time is that of a record among the polls. */
  lemma RowTime(jsmn: Tokenizer, s: System, i: nat)
    requires Ok(jsmn, s) && PolledOnly(s, BindsUpdated(jsmn)) && i < |s.collector.stored|
    ensures i < |s.taken| && s.taken[i].poll < |s.polled|
    ensures IsRecord(Times(s.polled), 0, s.taken[i].poll)
    ensures StoredTimes(s)[i] == Times(s.polled)[s.taken[i].poll]
  {
    RowAndPoll(jsmn, s, i);
    SentIsRecord(jsmn, s, i);
    SameTime(jsmn, s.polled[s.taken[i].poll].text, s.polled[s.taken[i].poll].tick, s.collector.stored[i]);
  }

  lemma TakenInOrder(jsmn: Tokenizer, s: System, i: nat, j: nat)
    requires Ok(jsmn, s) && i < j < |s.taken|
    ensures s.taken[i].poll < s.taken[j].poll
  {
    assert Pipe(s)[i] == s.taken[i] && Pipe(s)[j] == s.taken[j];
  }

  lemma SameTime(jsmn: Tokenizer, text: string, t: Ticker, u: Ticker)
    requires Gives(jsmn, text, t) && Gives(jsmn, text, u) && BindsKey(jsmn, text, UPDATED)
    ensures t.updated == u.updated
  {
    var j1 :| ParseTicker(jsmn, text, j1) == Extracted(t);
    var j2 :| ParseTicker(jsmn, text, j2) == Extracted(u);
    TimeFromText(jsmn, text, j1, j2);
  }

  /** Every row is the ticker of the poll that its message came from. */
  ghost predicate RowsArePolls(s: System) {
    && |s.collector.stored| <= |s.taken|
    && forall i :: 0 <= i < |s.collector.stored| ==>
         s.taken[i].poll < |s.polled| && s.collector.stored[i] == s.polled[s.taken[i].poll].tick
  }

  /** A subsequence of the polls: each row is the ticker of a poll, later for later rows. */
  ghost predicate RowsFollowPolls(s: System) {
    RowsArePolls(s) && forall i, j :: 0 <= i < j < |s.taken| ==> s.taken[i].poll < s.taken[j].poll
  }

  /** Every allowed text that can pass the crawler's filter has all nine keys. */
  ghost predicate Complete(jsmn: Tokenizer, allowed: string -> bool) {
    forall text: CString, t :: allowed(text) && Gives(jsmn, text, t) && t.updated > 0 ==> BindsAll(jsmn, text)
  }

  lemma StoredArePolled(jsmn: Tokenizer, allowed: string -> bool, polls: nat, turns: nat, events: seq<Event>)
    requires PollsOnly(events, allowed) && Complete(jsmn, allowed)
    ensures RowsFollowPolls(Run(jsmn, Init(polls, turns), events))
  {
    var s := Run(jsmn, Init(polls, turns), events);
    Reachable(jsmn, polls, turns, events, allowed);
    RowsOfState(jsmn, s, allowed);
    forall i, j | 0 <= i < j < |s.taken|
      ensures s.taken[i].poll < s.taken[j].poll
    {
      TakenInOrder(jsmn, s, i, j);
    }
  }

  lemma RowsOfState(jsmn: Tokenizer, s: System, allowed: string -> bool)
    requires Ok(jsmn, s) && PolledOnly(s, allowed) && Complete(jsmn, allowed)
    ensures RowsArePolls(s)
  {
    forall i | 0 <= i < |s.collector.stored|
      ensures s.taken[i].poll < |s.polled| && s.collector.stored[i] == s.polled[s.taken[i].poll].tick
    {
      RowAndPoll(jsmn, s, i);
      SentIsRecord(jsmn, s, i);
      var x := s.polled[s.taken[i].poll];
      assert Times(s.polled)[s.taken[i].poll] == x.tick.updated as int;
      SameRow(jsmn, x.text, x.tick, s.collector.stored[i]);
    }
  }

  lemma SameRow(jsmn: Tokenizer, text: string, t: Ticker, u: Ticker)
    requires Gives(jsmn, text, t) && Gives(jsmn, text, u)
    ensures BindsAll(jsmn, text) ==> t == u
  {
    var j1 :| ParseTicker(jsmn, text, j1) == Extracted(t);
    var j2 :| ParseTicker(jsmn, text, j2) == Extracted(u);
    TickerFromText(jsmn, text, j1, j2);
  }

  // ----- when an insertion always reports a failure -------------------------------------

  /** `sql_insert_tick` takes SQLITE_DONE from `sqlite3_finalize` for success. */
  ghost predicate NeverReportsSuccess(events: seq<Event>) {
    forall i :: 0 <= i < |events| && events[i].Collects? ==> !events[i].chance.insertion.Inserts?
  }

  predicate AtMostOneRow(c: Collector) {
    |c.stored| <= 1 && (c.running ==> c.stored == [])
  }

  /** Then no run stores more than one row, and the collector stops with it. */
  lemma {:induction false} OneRowAtMost(jsmn: Tokenizer, s: System, events: seq<Event>)
    requires NeverReportsSuccess(events) && AtMostOneRow(s.collector)
    ensures AtMostOneRow(Run(jsmn, s, events).collector)
  {
    if events != [] {
      var n := |events| - 1;
      assert forall i :: 0 <= i < n ==> events[..n][i] == events[i];
      OneRowAtMost(jsmn, s, events[..n]);
      StepRows(jsmn, Run(jsmn, s, events[..n]), events[n]);
    }
  }

  lemma StepRows(jsmn: Tokenizer, s: System, e: Event)
    requires AtMostOneRow(s.collector) && (e.Collects? ==> !e.chance.insertion.Inserts?)
    ensures AtMostOneRow(Step(jsmn, s, e).collector)
  {
  }

  // ----- conservation without losses ----------------------------------------------------

  function Polls(packets: seq<Packet>): seq<nat> {
    seq(|packets|, i requires 0 <= i < |packets| => packets[i].poll)
  }

  ghost predicate Lossless(events: seq<Event>) {
    forall i :: 0 <= i < |events| ==> !events[i].Loses?
  }

  lemma PipeOfStep(jsmn: Tokenizer, s: System, e: Event)
    requires !e.Loses?
    ensures var s' := Step(jsmn, s, e);
            || (Pipe(s') == Pipe(s) && s'.sent == s.sent)
            || exists p :: Pipe(s') == Pipe(s) + [p] && s'.sent == s.sent + [p.poll]
  {
    var s' := Step(jsmn, s, e);
    match e
    case Crawls(a) =>
      if Turns(s.crawler) && Crawl(jsmn, s.crawler, a).1 != [] {
        assert Pipe(s') == Pipe(s) + [s'.transit[|s'.transit| - 1]];
      }
    case Collects(arrived, x) =>
      if Takes(s.collector, Inbox(s, arrived), x) {
        TakeKeepsPipe(s.taken, s.transit);
      }
  }

  lemma PollsAppend(packets: seq<Packet>, p: Packet)
    ensures Polls(packets + [p]) == Polls(packets) + [p.poll]
  {
  }

  lemma {:induction false} PipeIsSent(jsmn: Tokenizer, s: System, events: seq<Event>)
    requires Lossless(events) && Polls(Pipe(s)) == s.sent
    ensures var s' := Run(jsmn, s, events); Polls(Pipe(s')) == s'.sent
  {
    if events != [] {
      var n := |events| - 1;
      var before, s' := Run(jsmn, s, events[..n]), Run(jsmn, s, events);
      assert forall i :: 0 <= i < n ==> events[..n][i] == events[i];
      PipeIsSent(jsmn, s, events[..n]);
      PipeOfStep(jsmn, before, events[n]);
      if Pipe(s') != Pipe(before) || s'.sent != before.sent {
        var p :| Pipe(s') == Pipe(before) + [p] && s'.sent == before.sent + [p.poll];
        PollsAppend(Pipe(before), p);
      }
    }
  }

  lemma PollsConcat(a: seq<Packet>, b: seq<Packet>)
    ensures Polls(a + b) == Polls(a) + Polls(b)
  {
  }

  /** Without losses, what was taken and what is in transit is what was sent, in order. */
  lemma NothingLost(jsmn: Tokenizer, polls: nat, turns: nat, events: seq<Event>)
    requires Lossless(events)
    ensures var s := Run(jsmn, Init(polls, turns), events); Polls(s.taken) + Polls(s.transit) == s.sent
  {
    PipeIsSent(jsmn, Init(polls, turns), events);
    PollsConcat(Run(jsmn, Init(polls, turns), events).taken, Run(jsmn, Init(polls, turns), events).transit);
  }

  function Ticks(polled: seq<Sample>, polls: seq<nat>): seq<Ticker>
    requires forall i :: 0 <= i < |polls| ==> polls[i] < |polled|
  {
    seq(|polls|, i requires 0 <= i < |polls| => polled[polls[i]].tick)
  }

  /** The rows and then the tickers in transit are the tickers sent. */
  ghost predicate Conserved(s: System) {
    && (forall i :: 0 <= i < |s.sent| ==> s.sent[i] < |s.polled|)
    && (forall i :: 0 <= i < |s.transit| ==> s.transit[i].poll < |s.polled|)
    && s.collector.stored + Ticks(s.polled, Polls(s.transit)) == Ticks(s.polled, s.sent)
  }

  /** Without losses, this holds at every head of the collector's loop; and what was sent are
      the records among the polls as long as the crawler runs. */
  lemma Conservation(jsmn: Tokenizer, allowed: string -> bool, polls: nat, turns: nat, events: seq<Event>)
    requires Lossless(events) && PollsOnly(events, allowed) && Complete(jsmn, allowed)
    ensures var s := Run(jsmn, Init(polls, turns), events);
            && (s.crawler.running ==> s.sent == RecordIndices(Times(s.polled), 0))
            && (s.collector.running ==> Conserved(s))
  {
    var s := Run(jsmn, Init(polls, turns), events);
    Reachable(jsmn, polls, turns, events, allowed);
    NothingLost(jsmn, polls, turns, events);
    RowsOfState(jsmn, s, allowed);
    if s.collector.running {
      SentArePolled(jsmn, s);
      ConservedState(s);
    }
  }

  lemma SentArePolled(jsmn: Tokenizer, s: System)
    requires Ok(jsmn, s)
    ensures forall i :: 0 <= i < |s.sent| ==> s.sent[i] < |s.polled|
  {
    var r := RecordIndices(Times(s.polled), 0);
    RecordIndicesExactly(Times(s.polled), 0);
    assert forall i :: 0 <= i < |s.sent| ==> s.sent[i] == r[i] && r[i] in r;
  }

  lemma ConservedState(s: System)
    requires RowsArePolls(s) && |s.collector.stored| == |s.taken|
    requires Polls(s.taken) + Polls(s.transit) == s.sent
    requires forall i :: 0 <= i < |s.sent| ==> s.sent[i] < |s.polled|
    ensures Conserved(s)
  {
    var n := |s.taken|;
    forall i | 0 <= i < |s.transit|
      ensures s.transit[i].poll == s.sent[n + i]
    {
      assert Polls(s.transit)[i] == (Polls(s.taken) + Polls(s.transit))[n + i];
    }
    forall i | 0 <= i < n
      ensures s.taken[i].poll == s.sent[i]
    {
      assert Polls(s.taken)[i] == (Polls(s.taken) + Polls(s.transit))[i];
    }
  }

  // ----- everything arrives -------------------------------------------------------------

  /** A turn in which the next message has arrived, no call fails, and the row is stored. */
  function FullTurn(junk: Ticker): Event {
    Collects(true, Chance(Normal, junk, Inserts))
  }

  function Drain(junk: Ticker, n: nat): (events: seq<Event>)
    ensures |events| == n
  {
    if n == 0 then [] else Drain(junk, n - 1) + [FullTurn(junk)]
  }

  /** What `n` such turns do to `s`. */
  predicate Drained(s: System, s': System, n: nat) {
    && n <= |s.transit| && n <= s.collector.budget
    && s'.transit == s.transit[n..] && s'.taken == s.taken + s.transit[..n]
    && s'.collector.running && s'.collector.budget == s.collector.budget - n
    && |s'.collector.stored| == |s.collector.stored| + n
    && s'.polled == s.polled && s'.sent == s.sent && s'.crawler == s.crawler
  }

  /** A message on the bus parses, over any memory. */
  lemma InTransitParses(jsmn: Tokenizer, s: System, junk: Ticker)
    requires Ok(jsmn, s) && s.transit != []
    ensures ParseTicker(jsmn, UpToNul(s.transit[0].bytes), junk).Extracted?
  {
    var p := s.transit[0];
    assert p == Pipe(s)[|s.taken|];
    assert IsSent(Pipe(s)[|s.taken|], s.sent, s.polled);
    var x := s.polled[p.poll];
    UpToNulExact(x.text, [NUL]);
    assert Gives(jsmn, x.text, x.tick);
    var j :| ParseTicker(jsmn, x.text, j) == Extracted(x.tick);
    OutcomeKind(jsmn, x.text, j, junk);
  }

  lemma FullTurnTakes(jsmn: Tokenizer, s: System, junk: Ticker)
    requires Ok(jsmn, s) && s.transit != [] && s.collector.running && s.collector.budget > 0
    ensures Drained(s, Step(jsmn, s, FullTurn(junk)), 1)
  {
    InTransitParses(jsmn, s, junk);
    assert Bytes(s.transit)[0] == s.transit[0].bytes;
    assert s.transit[..1] == [s.transit[0]];
  }

  lemma DrainedMore(s: System, s': System, s'': System, n: nat)
    requires Drained(s, s', n) && Drained(s', s'', 1)
    ensures Drained(s, s'', n + 1)
  {
    assert s'.transit[1..] == s.transit[n + 1..];
    assert s.taken + s.transit[..n] + s'.transit[..1] == s.taken + s.transit[..n + 1];
  }

  lemma RunSnoc(jsmn: Tokenizer, s: System, events: seq<Event>, e: Event)
    ensures Run(jsmn, s, events + [e]) == Step(jsmn, Run(jsmn, s, events), e)
  {
    assert (events + [e])[..|events|] == events;
  }

  lemma OneMoreDrained(jsmn: Tokenizer, s: System, s': System, junk: Ticker, n: nat)
    requires Ok(jsmn, s') && Drained(s, s', n) && n < |s.transit| && n < s.collector.budget
    ensures Drained(s, Step(jsmn, s', FullTurn(junk)), n + 1)
  {
    FullTurnTakes(jsmn, s', junk);
    DrainedMore(s, s', Step(jsmn, s', FullTurn(junk)), n);
  }

  lemma {:induction false} RunDrain(jsmn: Tokenizer, s: System, junk: Ticker, n: nat)
    requires Ok(jsmn, s) && s.collector.running && n <= |s.transit| && n <= s.collector.budget
    ensures Drained(s, Run(jsmn, s, Drain(junk, n)), n)
  {
    if n == 0 {
      assert s.taken + s.transit[..0] == s.taken;
    } else {
      RunDrain(jsmn, s, junk, n - 1);
      RunOk(jsmn, s, Drain(junk, n - 1));
      OneMoreDrained(jsmn, s, Run(jsmn, s, Drain(junk, n - 1)), junk, n - 1);
      RunSnoc(jsmn, s, Drain(junk, n - 1), FullTurn(junk));
    }
  }

  /** Without losses, a collector with turns left that nothing fails stores a row for every
      message that was sent. */
  lemma EverythingArrives(jsmn: Tokenizer, polls: nat, turns: nat, events: seq<Event>, junk: Ticker)
    requires Lossless(events)
    requires var s := Run(jsmn, Init(polls, turns), events);
             s.collector.running && |s.transit| <= s.collector.budget
    ensures var s := Run(jsmn, Init(polls, turns), events);
            var s' := Run(jsmn, s, Drain(junk, |s.transit|));
            && s'.transit == [] && s'.collector.running && Polls(s'.taken) == s.sent == s'.sent
            && |s'.collector.stored| == |s.sent|
  {
    var s := Run(jsmn, Init(polls, turns), events);
    InitOk(jsmn, polls, turns);
    RunOk(jsmn, Init(polls, turns), events);
    NothingLost(jsmn, polls, turns, events);
    RunDrain(jsmn, s, junk, |s.transit|);
    assert s.transit[..|s.transit|] == s.transit;
    PollsConcat(s.taken, s.transit);
  }

  // ----- exactly when the rows can be trusted -------------------------------------------

  /** Whatever allowed texts are polled and however the run goes, the rows are in order. */
  ghost predicate OrderKept(jsmn: Tokenizer, allowed: string -> bool) {
    forall polls, turns, events ::
      PollsOnly(events, allowed) ==> InOrder(StoredTimes(Run(jsmn, Init(polls, turns), events)))
  }

  /** Every allowed text that parses has an `updated` key. */
  ghost predicate Dated(jsmn: Tokenizer, allowed: string -> bool) {
    forall text: CString, junk ::
      allowed(text) && ParseTicker(jsmn, text, junk).Extracted? ==> BindsKey(jsmn, text, UPDATED)
  }

  lemma PolledAreDated(jsmn: Tokenizer, s: System, allowed: string -> bool)
    requires Ok(jsmn, s) && PolledOnly(s, allowed) && Dated(jsmn, allowed)
    ensures PolledOnly(s, BindsUpdated(jsmn))
  {
    forall i | 0 <= i < |s.polled|
      ensures BindsKey(jsmn, s.polled[i].text, UPDATED)
    {
      assert Gives(jsmn, s.polled[i].text, s.polled[i].tick);
      var junk :| ParseTicker(jsmn, s.polled[i].text, junk) == Extracted(s.polled[i].tick);
      assert allowed(s.polled[i].text);
    }
  }

  /** The bus is empty and both loops have turns left. */
  predicate Ready(s: System, time: CInt) {
    Turns(s.crawler) && s.crawler.updated == time && s.transit == [] && s.collector.running && s.collector.budget > 0
  }

  function Poll(text: CString, junk: Ticker): Event {
    Crawls(Body(text, junk, true))
  }

  function Receive(junk: Ticker): Event {
    Collects(true, Chance(Normal, junk, Inserts))
  }

  lemma PollIsSent(jsmn: Tokenizer, s: System, text: CString, junk: Ticker, t: Ticker)
    requires Turns(s.crawler) && ParseTicker(jsmn, text, junk) == Extracted(t) && t.updated > s.crawler.updated
    ensures Step(jsmn, s, Poll(text, junk))
         == s.(crawler := Crawler(t.updated, s.crawler.budget - 1, true),
               polled := s.polled + [Sample(text, t)],
               sent := s.sent + [|s.polled|],
               transit := s.transit + [Packet(Wire(text), |s.polled|)])
  {
  }

  lemma PacketIsStored(jsmn: Tokenizer, s: System, text: CString, n: nat, junk: Ticker, t: Ticker)
    requires s.collector.running && s.collector.budget > 0 && s.transit == [Packet(Wire(text), n)]
    requires ParseTicker(jsmn, text, junk) == Extracted(t)
    ensures Step(jsmn, s, Receive(junk))
         == s.(taken := s.taken + s.transit, transit := [],
               collector := Collector(s.collector.stored + [t], s.collector.budget - 1, true))
  {
    UpToNulExact(text, [NUL]);
    assert Bytes(s.transit)[0] == Wire(text);
  }

  /** One text polled and stored, parsed over two memory contents. */
  lemma AfterRound(jsmn: Tokenizer, s: System, text: CString, j1: Ticker, t1: Ticker, j2: Ticker, t2: Ticker)
    requires Ready(s, s.crawler.updated) && s.crawler.updated < t1.updated
    requires ParseTicker(jsmn, text, j1) == Extracted(t1) && ParseTicker(jsmn, text, j2) == Extracted(t2)
    ensures var s' := Step(jsmn, Step(jsmn, s, Poll(text, j1)), Receive(j2));
            && s'.crawler == Crawler(t1.updated, s.crawler.budget - 1, true) && s'.transit == []
            && s'.collector == Collector(s.collector.stored + [t2], s.collector.budget - 1, true)
            && s'.polled == s.polled + [Sample(text, t1)] && s'.taken == s.taken + [Packet(Wire(text), |s.polled|)]
  {
    PollIsSent(jsmn, s, text, j1, t1);
    assert s.transit + [Packet(Wire(text), |s.polled|)] == [Packet(Wire(text), |s.polled|)];
    PacketIsStored(jsmn, Step(jsmn, s, Poll(text, j1)), text, |s.polled|, j2, t2);
  }

  lemma RunTwo(jsmn: Tokenizer, s: System, before: seq<Event>, e: Event, f: Event)
    ensures Run(jsmn, s, before + [e, f]) == Step(jsmn, Step(jsmn, Run(jsmn, s, before), e), f)
  {
    var events := before + [e, f];
    assert events[..|events| - 1] == before + [e];
    assert (before + [e])[..|before|] == before;
  }

  /** A text without `updated` is stored twice with the same time. */
  lemma UndatedTwice(jsmn: Tokenizer, text: CString, j1: Ticker, j2: Ticker, j0: Ticker)
    requires !BindsKey(jsmn, text, UPDATED) && ParseTicker(jsmn, text, j0).Extracted?
    requires j1.updated == 1 && j2.updated == 2 && j0.updated == 0
    ensures var first := [Poll(text, j1), Receive(j0)];
            StoredTimes(Run(jsmn, Init(2, 2), first + [Poll(text, j2), Receive(j0)])) == [0, 0]
  {
    OutcomeKind(jsmn, text, j0, j1);
    OutcomeKind(jsmn, text, j0, j2);
    TimeFromText(jsmn, text, j0, j0);
    TimeFromText(jsmn, text, j1, j1);
    TimeFromText(jsmn, text, j2, j2);
    var t0, t1 := ParseTicker(jsmn, text, j0).ticker, ParseTicker(jsmn, text, j1).ticker;
    var t2 := ParseTicker(jsmn, text, j2).ticker;
    var first := [Poll(text, j1), Receive(j0)];
    RoundFromStart(jsmn, text, j1, t1, j0, t0);
    RunTwo(jsmn, Init(2, 2), first, Poll(text, j2), Receive(j0));
    AfterRound(jsmn, Run(jsmn, Init(2, 2), first), text, j2, t2, j0, t0);
  }

  lemma RoundFromStart(jsmn: Tokenizer, text: CString, j1: Ticker, t1: Ticker, j2: Ticker, t2: Ticker)
    requires ParseTicker(jsmn, text, j1) == Extracted(t1) && ParseTicker(jsmn, text, j2) == Extracted(t2)
    requires t1.updated > 0
    ensures var s := Run(jsmn, Init(2, 2), [Poll(text, j1), Receive(j2)]);
            && Ready(s, t1.updated) && s.crawler.budget == s.collector.budget == 1
            && s.collector.stored == [t2]
            && s.polled == [Sample(text, t1)] && s.taken == [Packet(Wire(text), 0)]
  {
    var round := [Poll(text, j1), Receive(j2)];
    assert [] + round == round;
    RunTwo(jsmn, Init(2, 2), [], Poll(text, j1), Receive(j2));
    AfterRound(jsmn, Init(2, 2), text, j1, t1, j2, t2);
  }

  lemma UndatedBreaksOrder(jsmn: Tokenizer, allowed: string -> bool, text: CString, junk: Ticker)
    requires allowed(text) && ParseTicker(jsmn, text, junk).Extracted? && !BindsKey(jsmn, text, UPDATED)
    ensures !OrderKept(jsmn, allowed)
  {
    var j0, j1, j2 := junk.(updated := 0), junk.(updated := 1), junk.(updated := 2);
    OutcomeKind(jsmn, text, junk, j0);
    UndatedTwice(jsmn, text, j1, j2, j0);
    var events := [Poll(text, j1), Receive(j0)] + [Poll(text, j2), Receive(j0)];
    assert PollsOnly(events, allowed);
    assert StoredTimes(Run(jsmn, Init(2, 2), events))[0] == 0;
  }

  /** The stored order is safe exactly when no text that parses lacks its `updated` key. */
  lemma OrderKeptExactly(jsmn: Tokenizer, allowed: string -> bool)
    ensures OrderKept(jsmn, allowed) <==> Dated(jsmn, allowed)
  {
    if Dated(jsmn, allowed) {
      forall polls, turns, events | PollsOnly(events, allowed)
        ensures InOrder(StoredTimes(Run(jsmn, Init(polls, turns), events)))
      {
        Reachable(jsmn, polls, turns, events, allowed);
        PolledAreDated(jsmn, Run(jsmn, Init(polls, turns), events), allowed);
        RowsInOrder(jsmn, Run(jsmn, Init(polls, turns), events));
      }
    } else {
      var text: CString, junk :|
        allowed(text) && ParseTicker(jsmn, text, junk).Extracted? && !BindsKey(jsmn, text, UPDATED);
      UndatedBreaksOrder(jsmn, allowed, text, junk);
    }
  }

  /** Whatever allowed texts are polled and however the run goes, the rows are polls. */
  ghost predicate RowsKept(jsmn: Tokenizer, allowed: string -> bool) {
    forall polls, turns, events ::
      PollsOnly(events, allowed) ==> RowsFollowPolls(Run(jsmn, Init(polls, turns), events))
  }

  /** Memory that differs from `junk` in every field that a key can set. */
  function Other(junk: Ticker, f: Field): Ticker {
    var d := if junk.Get(f) == ZERO then NotANumber else ZERO;
    Ticker(junk.pair, d, d, d, d, d, d, d, d, if junk.updated == 0 then 1 else 0)
  }

  /** A text that lacks a key gives different tickers over different memory. */
  lemma MissingKeyShows(jsmn: Tokenizer, text: CString, junk: Ticker, f: Field)
    requires ParseTicker(jsmn, text, junk).Extracted?
    requires !BindsKey(jsmn, text, UPDATED) || !BindsKey(jsmn, text, Name(f))
    ensures ParseTicker(jsmn, text, Other(junk, f)).Extracted?
    ensures ParseTicker(jsmn, text, Other(junk, f)) != ParseTicker(jsmn, text, junk)
  {
    OutcomeKind(jsmn, text, junk, Other(junk, f));
    TimeFromText(jsmn, text, junk, junk);
    TimeFromText(jsmn, text, Other(junk, f), junk);
    if !BindsKey(jsmn, text, Name(f)) {
      FieldFromMemory(jsmn, text, junk, f);
      FieldFromMemory(jsmn, text, Other(junk, f), f);
      assert Other(junk, f).Get(f) != junk.Get(f);
    }
  }

  lemma RowIsNotThePoll(s: System, text: CString, t1: Ticker, t2: Ticker)
    requires s.collector.stored == [t2] && s.polled == [Sample(text, t1)] && s.taken == [Packet(Wire(text), 0)]
    requires t1 != t2
    ensures !RowsFollowPolls(s)
  {
    assert s.taken[0].poll == 0 && s.collector.stored[0] == t2 && s.polled[0].tick == t1;
  }

  lemma MissingKeyBreaksRows(jsmn: Tokenizer, allowed: string -> bool, text: CString, junk: Ticker)
    requires allowed(text) && ParseTicker(jsmn, text, junk).Extracted?
    requires ParseTicker(jsmn, text, junk).ticker.updated > 0 && !BindsAll(jsmn, text)
    ensures !RowsKept(jsmn, allowed)
  {
    var f: Field :| !BindsKey(jsmn, text, UPDATED) || !BindsKey(jsmn, text, Name(f));
    var other := Other(junk, f);
    MissingKeyShows(jsmn, text, junk, f);
    var t1, t2 := ParseTicker(jsmn, text, junk).ticker, ParseTicker(jsmn, text, other).ticker;
    RoundFromStart(jsmn, text, junk, t1, other, t2);
    var events := [Poll(text, junk), Receive(other)];
    assert PollsOnly(events, allowed);
    RowIsNotThePoll(Run(jsmn, Init(2, 2), events), text, t1, t2);
  }

  /** The rows are a subsequence of the polls exactly when no text that can be published lacks
      one of the nine keys. */
  lemma RowsKeptExactly(jsmn: Tokenizer, allowed: string -> bool)
    ensures RowsKept(jsmn, allowed) <==> Complete(jsmn, allowed)
  {
    if Complete(jsmn, allowed) {
      forall polls, turns, events | PollsOnly(events, allowed)
        ensures RowsFollowPolls(Run(jsmn, Init(polls, turns), events))
      {
        StoredArePolled(jsmn, allowed, polls, turns, events);
      }
    } else {
      var text: CString, t :| allowed(text) && Gives(jsmn, text, t) && t.updated > 0 && !BindsAll(jsmn, text);
      var junk :| ParseTicker(jsmn, text, junk) == Extracted(t);
      MissingKeyBreaksRows(jsmn, allowed, text, junk);
    }
  }

  // ----- neither holds for all texts ----------------------------------------------------

  function AnyText(): string -> bool {
    text => true
  }

  /** Polls may break the order: `{"p":{"high":1}}` is a ticker without a time. */
  lemma OrderIsNotAlwaysKept(jsmn: Tokenizer)
    requires AgreesWithGrammar(jsmn)
    ensures !OrderKept(jsmn, AnyText())
  {
    var junk := Companions.Filled(ZERO, 1);
    Companions.UndatedText(jsmn, junk);
    UndatedBreaksOrder(jsmn, AnyText(), Companions.UndatedTicker(), junk);
  }

  /** And rows may be no polls: over memory that holds a time, that ticker is published. */
  lemma RowsAreNotAlwaysPolls(jsmn: Tokenizer)
    requires AgreesWithGrammar(jsmn)
    ensures !RowsKept(jsmn, AnyText())
  {
    var junk := Companions.Filled(ZERO, 1);
    Companions.UndatedText(jsmn, junk);
    TimeFromText(jsmn, Companions.UndatedTicker(), junk, junk);
    MissingKeyBreaksRows(jsmn, AnyText(), Companions.UndatedTicker(), junk);
  }
}
