/** Starting a worker and waiting for its messages (src/module/flipd/daemon_handler.c). */
module Launch {
  import opened Common
  import opened Text
  import opened Bus
  import opened Printf

  /** What the root daemon knows of a worker. */
  datatype Worker = Worker(identityName: CString, pidFile: CString, url: CString)

  const BINARY := "/home/celestian/Projects/flip/x86_64/flip_crawler "

  function Command(w: Worker): string {
    BINARY + Arguments(w.identityName, w.pidFile, w.url)
  }

  function Arguments(a: string, b: string, c: string): string {
    a + (" " + (b + (" " + (c + " "))))
  }

  lemma ArgumentsArePrintf(a: string, b: string, c: string)
    ensures Arguments(a, b, c) == Format("%s" + (" " + ("%s" + (" " + ("%s" + " ")))), [Chars(a), Chars(b), Chars(c)])
  {
    var args := [Chars(a), Chars(b), Chars(c)];
    assert args == [Chars(a)] + args[1..] && args[1..] == [Chars(b)] + args[2..] && args[2..] == [Chars(c)] + [];
    FormatChars(a, " " + ("%s" + (" " + ("%s" + " "))), args[1..]);
    FormatText(" ", "%s" + (" " + ("%s" + " ")), args[1..]);
    FormatChars(b, " " + ("%s" + " "), args[2..]);
    FormatText(" ", "%s" + " ", args[2..]);
    FormatChars(c, " ", []);
    FormatEnd(" ");
  }

  /** The command is what `printf` makes of the format in the source. */
  lemma CommandIsPrintf(w: Worker)
    ensures Command(w) == Format("/home/celestian/Projects/flip/x86_64/flip_crawler " + "%s %s %s ",
                                 [Chars(w.identityName), Chars(w.pidFile), Chars(w.url)])
  {
    ArgumentsArePrintf(w.identityName, w.pidFile, w.url);
    assert "%s" + (" " + ("%s" + (" " + ("%s" + " ")))) == "%s %s %s ";
    NoPercent();
    FormatText(BINARY, "%s %s %s ", [Chars(w.identityName), Chars(w.pidFile), Chars(w.url)]);
  }

  lemma NoPercent()
    ensures '%' !in BINARY
  {
    ProgramParts();
    CommandStart("");
    NotInParts("/home/celestian", "/Projects/flip", "/x86_64/flip", "_crawler", '%');
    assert BINARY + "" == BINARY && " " + "" == " ";
  }

  predicate NotSpace(c: char) {
    c != ' '
  }

  /** The words of a command line. */
  function Words(s: string): (ws: seq<string>)
    ensures forall w :: w in ws ==> w != "" && ' ' !in w
  {
    var n := Span(s, NotSpace);
    if s == "" then []
    else if n == 0 then Words(s[1..])
    else [s[..n]] + Words(s[n..])
  }

  lemma WordThen(word: string, rest: string)
    requires word != "" && ' ' !in word
    ensures Words(word + (" " + rest)) == [word] + Words(rest)
  {
    SpanExact(word, " " + rest, NotSpace);
    assert (" " + rest)[1..] == rest;
    assert Span(" " + rest, NotSpace) == 0;
  }

  predicate IsWord(s: string) {
    s != "" && ' ' !in s
  }

  lemma ArgumentWords(program: string, a: string, b: string, c: string)
    requires IsWord(program) && IsWord(a) && IsWord(b) && IsWord(c)
    ensures Words(program + (" " + Arguments(a, b, c))) == [program, a, b, c]
  {
    WordThen(program, Arguments(a, b, c));
    WordThen(a, b + (" " + (c + " ")));
    WordThen(b, c + " ");
    LastWord(c);
  }

  lemma LastWord(c: string)
    requires IsWord(c)
    ensures Words(c + " ") == [c]
  {
    WordThen(c, "");
    assert " " + "" == " ";
  }

  lemma WordsAreWords(s: string, all: seq<string>)
    requires Words(s) == all
    ensures forall i :: 0 <= i < |all| ==> IsWord(all[i])
  {
    assert forall i :: 0 <= i < |all| ==> all[i] in Words(s);
  }

  lemma ProgramWords(program: string, a: string, b: string, c: string)
    requires IsWord(program)
    ensures Words(program + (" " + Arguments(a, b, c))) == [program, a, b, c] <==> IsWord(a) && IsWord(b) && IsWord(c)
  {
    var all := [program, a, b, c];
    if Words(program + (" " + Arguments(a, b, c))) == all {
      WordsAreWords(program + (" " + Arguments(a, b, c)), all);
      assert all[1] == a && all[2] == b && all[3] == c;
    }
    if IsWord(a) && IsWord(b) && IsWord(c) {
      ArgumentWords(program, a, b, c);
    }
  }

  /** The worker gets its three arguments, in this order, exactly when none is empty or holds
      a space. */
  lemma CommandWords(w: Worker)
    ensures Words(Command(w)) == ["/home/celestian/Projects/flip/x86_64/flip_crawler", w.identityName, w.pidFile, w.url]
       <==> IsWord(w.identityName) && IsWord(w.pidFile) && IsWord(w.url)
  {
    ProgramIsWord();
    CommandStart(Arguments(w.identityName, w.pidFile, w.url));
    ProgramWords("/home/celestian/Projects/flip/x86_64/flip_crawler", w.identityName, w.pidFile, w.url);
  }

  lemma ProgramIsWord()
    ensures IsWord("/home/celestian/Projects/flip/x86_64/flip_crawler")
  {
    ProgramParts();
    NotInParts("/home/celestian", "/Projects/flip", "/x86_64/flip", "_crawler", ' ');
  }

  lemma ProgramParts()
    ensures "/home/celestian/Projects/flip/x86_64/flip_crawler"
         == "/home/celestian" + "/Projects/flip" + "/x86_64/flip" + "_crawler"
  {
  }

  lemma NotInParts(a: string, b: string, c: string, d: string, x: char)
    requires x !in a && x !in b && x !in c && x !in d
    ensures x !in a + b + c + d
  {
  }

  lemma CommandStart(rest: string)
    ensures BINARY + rest == "/home/celestian/Projects/flip/x86_64/flip_crawler" + (" " + rest)
  {
    assert BINARY == "/home/celestian/Projects/flip/x86_64/flip_crawler" + " ";
  }

  /** A zeroed chunk, before anything is received. */
  const EMPTY := Chunk("", 0)

  /** What reaches the socket before a turn, and how its receive goes. */
  datatype Slot = Slot(arrivals: seq<string>, delivery: Delivery)

  /** What the loop does to the outside. */
  datatype Action = Started(command: string) | Asked

  /** The loop between two turns. `turns` counts the receives, and `consumed` and `log` are
      history. */
  datatype State = State(
    running: bool, inbox: seq<string>, chunk: Chunk, turns: nat, consumed: seq<string>, log: seq<Action>)

  function Init(inbox: seq<string>): State {
    State(true, inbox, EMPTY, 0, [], [])
  }

  /** The part of a turn that receives. */
  function Receive(s: State, slot: Slot): State {
    var waiting := s.inbox + slot.arrivals;
    var s' := s.(inbox := waiting, turns := s.turns + 1, log := s.log + [Asked]);
    if slot.delivery.Fault? then s'.(running := false)
    else if waiting == [] then s'
    else s'.(inbox := waiting[1..], chunk := Received(waiting[0]), consumed := s.consumed + [waiting[0]])
  }

  /** A turn; the first one starts the worker. */
  function Turn(s: State, first: bool, command: string, starts: bool, slot: Slot): State {
    if !s.running then s
    else
      var s' := if first then s.(log := s.log + [Started(command)]) else s;
      if first && !starts then s'.(running := false) else Receive(s', slot)
  }

  /** The loop on as many turns as there are slots. */
  function Loop(inbox: seq<string>, command: string, starts: bool, slots: seq<Slot>): State {
    if slots == [] then Init(inbox)
    else
      var n := |slots| - 1;
      Turn(Loop(inbox, command, starts, slots[..n]), n == 0, command, starts, slots[n])
  }

  function Arrivals(slots: seq<Slot>): seq<string> {
    if slots == [] then [] else Arrivals(slots[..|slots| - 1]) + slots[|slots| - 1].arrivals
  }

  // ----- what the loop promises ---------------------------------------------------------

  /** One start, and only receives after it. */
  predicate StartsOnce(log: seq<Action>, command: string) {
    log != [] && log[0] == Started(command) && forall i :: 1 <= i < |log| ==> log[i] == Asked
  }

  /** What was taken and what remains is what arrived, in order, at most one message was
      taken a turn, and the chunk is that of the last one. */
  predicate Accounts(s: State, arrived: seq<string>) {
    && s.consumed + s.inbox == arrived && |s.consumed| <= s.turns
    && s.chunk == if s.consumed == [] then Chunk("", 0) else Received(s.consumed[|s.consumed| - 1])
  }

  /** A loop that still runs has made all its turns; one that failed accounts for what had
      arrived by then. */
  predicate Promised(s: State, inbox: seq<string>, command: string, slots: seq<Slot>) {
    && s.turns <= |slots| && (s.running ==> s.turns == |slots|)
    && Accounts(s, inbox + Arrivals(slots[..s.turns])) && LogOk(s, command, |slots|)
  }

  predicate LogOk(s: State, command: string, n: nat) {
    if n == 0 then s.log == [] && s.turns == 0 else StartsOnce(s.log, command) && |s.log| == s.turns + 1
  }

  lemma TurnLog(s: State, command: string, starts: bool, slot: Slot, n: nat)
    requires LogOk(s, command, n) && (n == 0 ==> s.running)
    ensures LogOk(Turn(s, n == 0, command, starts, slot), command, n + 1)
  {
  }

  lemma ReceiveAccounts(s: State, slot: Slot, arrived: seq<string>)
    requires Accounts(s, arrived)
    ensures Accounts(Receive(s, slot), arrived + slot.arrivals)
  {
    var waiting := s.inbox + slot.arrivals;
    assert s.consumed + waiting == arrived + slot.arrivals;
    if waiting != [] {
      assert (s.consumed + [waiting[0]]) + waiting[1..] == s.consumed + waiting;
    }
  }

  lemma ArrivalsNext(inbox: seq<string>, slots: seq<Slot>, n: nat)
    requires n < |slots|
    ensures inbox + Arrivals(slots[..n + 1]) == (inbox + Arrivals(slots[..n])) + slots[n].arrivals
  {
    assert slots[..n + 1][..n] == slots[..n];
  }

  lemma TurnKeepsPromise(s: State, inbox: seq<string>, command: string, starts: bool, slots: seq<Slot>)
    requires slots != [] && Promised(s, inbox, command, slots[..|slots| - 1]) && (|slots| == 1 ==> s.running)
    ensures Promised(Turn(s, |slots| == 1, command, starts, slots[|slots| - 1]), inbox, command, slots)
  {
    var n := |slots| - 1;
    assert slots[..n][..s.turns] == slots[..s.turns];
    TurnLog(s, command, starts, slots[n], n);
    if s.running && (n != 0 || starts) {
      var s' := if n == 0 then s.(log := s.log + [Started(command)]) else s;
      ReceiveAccounts(s', slots[n], inbox + Arrivals(slots[..n]));
      ArrivalsNext(inbox, slots, n);
    }
  }

  /** For every budget, zero included, and every schedule. */
  lemma {:induction false} LoopPromises(inbox: seq<string>, command: string, starts: bool, slots: seq<Slot>)
    ensures Promised(Loop(inbox, command, starts, slots), inbox, command, slots)
  {
    if slots != [] {
      LoopPromises(inbox, command, starts, slots[..|slots| - 1]);
      TurnKeepsPromise(Loop(inbox, command, starts, slots[..|slots| - 1]), inbox, command, starts, slots);
    }
  }

  /** The loop fails exactly when the worker cannot be started or a receive fails. */
  lemma {:induction false} RunningExactly(inbox: seq<string>, command: string, starts: bool, slots: seq<Slot>)
    ensures Loop(inbox, command, starts, slots).running
       <==> slots == [] || (starts && forall i :: 0 <= i < |slots| ==> slots[i].delivery.Normal?)
  {
    if slots != [] {
      var n := |slots| - 1;
      RunningExactly(inbox, command, starts, slots[..n]);
      assert forall i :: 0 <= i < n ==> slots[..n][i] == slots[i];
    }
  }

  lemma LoopNext(inbox: seq<string>, command: string, starts: bool, slots: seq<Slot>, n: nat)
    requires n < |slots|
    ensures Loop(inbox, command, starts, slots[..n + 1])
         == Turn(Loop(inbox, command, starts, slots[..n]), n == 0, command, starts, slots[n])
  {
    assert slots[..n + 1][..n] == slots[..n];
  }

  function Min(a: nat, b: nat): nat {
    if a < b then a else b
  }

  /** The first `k` of `all` are taken and the others wait. */
  predicate Taken(s: State, waiting: seq<string>, all: seq<string>, k: nat) {
    s.running && k <= |all| && s.consumed == all[..k] && waiting == all[k..]
  }

  lemma TurnTakes(s: State, first: bool, command: string, slot: Slot, all: seq<string>, k: nat)
    requires Taken(s, s.inbox + slot.arrivals, all, k) && slot.delivery.Normal?
    ensures var s' := Turn(s, first, command, true, slot); Taken(s', s'.inbox, all, Min(k + 1, |all|))
  {
    if k < |all| {
      assert all[..k + 1] == all[..k] + [all[k]];
    }
  }

  /** Nothing fails, and nothing arrives after the first receive. */
  predicate Early(slots: seq<Slot>) {
    forall i :: 0 <= i < |slots| ==> slots[i].delivery.Normal? && (i > 0 ==> slots[i].arrivals == [])
  }

  lemma FirstTurnTakes(inbox: seq<string>, command: string, slots: seq<Slot>)
    requires slots != [] && Early(slots)
    ensures var s, all := Loop(inbox, command, true, slots[..1]), inbox + slots[0].arrivals;
            Taken(s, s.inbox, all, Min(1, |all|))
  {
    LoopNext(inbox, command, true, slots, 0);
    assert slots[..0] == [];
    TurnTakes(Init(inbox), true, command, slots[0], inbox + slots[0].arrivals, 0);
  }

  lemma LaterTurnTakes(s: State, command: string, slots: seq<Slot>, n: nat, all: seq<string>)
    requires 0 < n < |slots| && Early(slots) && Taken(s, s.inbox, all, Min(n, |all|))
    ensures var s' := Turn(s, false, command, true, slots[n]); Taken(s', s'.inbox, all, Min(n + 1, |all|))
  {
    assert s.inbox + slots[n].arrivals == s.inbox;
    TurnTakes(s, false, command, slots[n], all, Min(n, |all|));
  }

  /** Messages that are there by the first receive are all taken, up to the budget. */
  lemma {:induction false} EarlyArrivalsTaken(inbox: seq<string>, command: string, slots: seq<Slot>, n: nat)
    requires 0 < n <= |slots| && Early(slots)
    ensures var s, all := Loop(inbox, command, true, slots[..n]), inbox + slots[0].arrivals;
            Taken(s, s.inbox, all, Min(n, |all|))
  {
    if n == 1 {
      FirstTurnTakes(inbox, command, slots);
    } else {
      EarlyArrivalsTaken(inbox, command, slots, n - 1);
      LoopNext(inbox, command, true, slots, n - 1);
      LaterTurnTakes(Loop(inbox, command, true, slots[..n - 1]), command, slots, n - 1, inbox + slots[0].arrivals);
    }
  }

  // ----- the loop itself ----------------------------------------------------------------

  /** A loop that has failed stays as it is. */
  lemma {:induction false} LoopFailed(inbox: seq<string>, command: string, starts: bool, slots: seq<Slot>, n: nat)
    requires n <= |slots| && !Loop(inbox, command, starts, slots[..n]).running
    decreases |slots| - n
    ensures Loop(inbox, command, starts, slots) == Loop(inbox, command, starts, slots[..n])
  {
    if n < |slots| {
      LoopNext(inbox, command, starts, slots, n);
      LoopFailed(inbox, command, starts, slots, n + 1);
    } else {
      assert slots[..n] == slots;
    }
  }

  /** After `n` of the turns the loop is in state `s`. */
  ghost predicate Reached(inbox: seq<string>, command: string, starts: bool, slots: seq<Slot>, n: nat, s: State) {
    n <= |slots| && Loop(inbox, command, starts, slots[..n]) == s
  }

  lemma ReachedOneMore(inbox: seq<string>, command: string, starts: bool, slots: seq<Slot>, n: nat, s: State)
    requires Reached(inbox, command, starts, slots, n, s) && n < |slots|
    ensures var s' := Turn(s, n == 0, command, starts, slots[n]);
            && Reached(inbox, command, starts, slots, n + 1, s')
            && (!s'.running ==> Reached(inbox, command, starts, slots, |slots|, s'))
  {
    LoopNext(inbox, command, starts, slots, n);
    if !Turn(s, n == 0, command, starts, slots[n]).running {
      LoopFailed(inbox, command, starts, slots, n + 1);
      assert slots[..|slots|] == slots;
    }
  }

  /** The outside world as the loop acts on it. */
  class Host {
    var log: seq<Action>

    constructor ()
      ensures log == []
    {
      log := [];
    }
  }

  /** The body of the loop; the result says whether it goes on. */
  method WorkerTurn(i: nat, budget: nat, command: string, starts: bool, slot: Slot, chunk: Chunk,
                    channel: Channel, host: Host, ghost s: State, ghost before: seq<Action>)
      returns (goesOn: bool, chunk': Chunk)
    requires s.running && s.inbox == channel.queue && s.chunk == chunk && host.log == before + s.log
    modifies channel, host
    ensures var s' := Turn(s, i == budget, command, starts, slot);
            && goesOn == s'.running && channel.queue == s'.inbox && chunk' == s'.chunk
            && host.log == before + s'.log
  {
    if i == budget {
      host.log := host.log + [Started(command)];
      if !starts {
        return false, chunk;
      }
    }
    channel.queue := channel.queue + slot.arrivals;
    host.log := host.log + [Asked];
    var ret;
    ret, chunk' := NbusReceive(channel, chunk, slot.delivery);
    goesOn := ret == EOK || ret == EAGAIN;
  }

  /** One chance for a message in each of the budget's turns; `ret`, the chunk and what was
      done to the outside are those of the final state. */
  method AsyncStartWorkerDaemon2(worker: Worker, starts: bool, slots: seq<Slot>, channel: Channel, host: Host)
      returns (ret: Errno, result: Option<Chunk>, ghost s: State)
    modifies channel, host
    ensures Reached(old(channel.queue), Command(worker), starts, slots, |slots|, s)
    ensures channel.queue == s.inbox && host.log == old(host.log) + s.log
    ensures ret == (if s.running then EOK else EIO) && result == if s.running then Some(s.chunk) else None
  {
    var chunk, goesOn := EMPTY, true;
    var i := |slots|;
    var command := Command(worker);
    s := Init(channel.queue);
    while i > 0
      invariant 0 <= i <= |slots| && s.running && s.inbox == channel.queue && s.chunk == chunk
      invariant host.log == old(host.log) + s.log
      invariant Reached(old(channel.queue), command, starts, slots, |slots| - i, s)
    {
      var slot := slots[|slots| - i];
      ReachedOneMore(old(channel.queue), command, starts, slots, |slots| - i, s);
      goesOn, chunk := WorkerTurn(i, |slots|, command, starts, slot, chunk, channel, host, s, old(host.log));
      s := Turn(s, i == |slots|, command, starts, slot);
      if !goesOn {
        return EIO, None, s;
      }
      i := i - 1;
    }
    ret := EOK;
    result := Some(chunk);
  }
}
