/**
 The PID files of src/common/utils/daemon.c, with any number of processes.

 Every call into the file system is a step of its own, and the steps of all processes
 interleave freely. A process can end at any point, by a crash or by `exit`.
 */
module PidFile {
  import opened Printf
  import opened Text

  const TMP := "/tmp"

  /** A path is absolute or relative to a directory. */
  function Resolve(dir: string, path: string): string {
    if IsAbsolute(path) then path else dir + "/" + path
  }

  predicate IsAbsolute(path: string) {
    path != "" && path[0] == '/'
  }

  /** The path names the same file before and after the change to `/tmp`. */
  predicate Stable(dir: string, path: string) {
    Resolve(dir, path) == Resolve(TMP, path)
  }

  lemma ResolveExactly(dir: string, path: string)
    ensures Resolve(dir, path) == if "/" <= path then path else dir + "/" + path
  {
  }

  lemma StableExactly(dir: string, path: string)
    ensures Stable(dir, path) <==> Resolve(dir, path) == Resolve("/tmp", path)
    ensures Stable(dir, path) <==> "/" <= path || dir == "/tmp"
  {
    if Stable(dir, path) && !IsAbsolute(path) {
      var a, b := dir + ("/" + path), TMP + ("/" + path);
      assert a == Resolve(dir, path) && b == Resolve(TMP, path);
      assert |dir| == |TMP| && a[..|dir|] == b[..|TMP|];
    }
  }

  /** What `fprintf` writes into the file. */
  function PidLine(pid: nat): string {
    Decimal(pid) + "\n"
  }

  /** The line is what `printf` makes of the format in the source. */
  lemma PidLineIsPrintf(pid: nat)
    ensures PidLine(pid) == Format("%d\n", [Signed(pid)])
  {
    FormatSigned(pid, "\n", []);
    FormatEnd("\n");
    assert "%d" + "\n" == "%d\n" && [Signed(pid)] + [] == [Signed(pid)];
  }

  /** Whoever reads the text gets this PID: decimal digits that denote it, and a newline. */
  predicate NamesPid(text: string, pid: nat) {
    && |text| > 1 && text[|text| - 1] == '\n' && AllDigits(text[..|text| - 1])
    && Evaluate(text[..|text| - 1], 10) == pid
  }

  lemma PidLineNames(pid: nat)
    ensures NamesPid(PidLine(pid), pid)
  {
    var s := PidLine(pid);
    assert s[..|s| - 1] == Decimal(pid);
    DecimalValue(pid);
  }

  /** Where a process stands in `become_daemon` and `stop_daemon`. */
  datatype Phase = Checking | Opening | Writing | Moving | Serving | Removing

  /** A fresh process has no PID path yet. `handle` is the file that a daemon opened, and
      `recorded` says whether its line has reached that file. */
  datatype Process =
    | Fresh(dir: string)
    | Daemon(dir: string, path: string, phase: Phase, handle: nat, recorded: bool)

  /** A file keeps its `id` as long as its name is not unlinked. */
  datatype File = File(id: nat, text: string)

  datatype World = World(files: map<string, File>, next: nat, procs: map<nat, Process>)

  datatype Event =
    | Starts(pid: nat, dir: string)
    | Forks(pid: nat, child: nat, path: string)
    | Checks(pid: nat)
    | Opens(pid: nat, ok: bool)
    | Writes(pid: nat, printed: bool, flushed: bool)
    | Moves(pid: nat, ok: bool)
    | Stops(pid: nat)
    | Unlinks(pid: nat, ok: bool)
    | Dies(pid: nat)

  function Target(x: Process): string
    requires x.Daemon?
  {
    Resolve(x.dir, x.path)
  }

  predicate At(w: World, p: nat, phase: Phase) {
    p in w.procs && w.procs[p].Daemon? && w.procs[p].phase == phase
  }

  function Gone(w: World, p: nat): World {
    w.(procs := w.procs - {p})
  }

  function Put(w: World, p: nat, x: Process): World {
    w.(procs := w.procs[p := x])
  }

  /** Writing at the start of a file leaves what lies behind. */
  function Overwrite(text: string, line: string): string {
    if |line| < |text| then line + text[|line|..] else line
  }

  lemma OverwriteExactly(text: string, line: string)
    ensures var r := Overwrite(text, line);
            && |r| == (if |line| > |text| then |line| else |text|)
            && forall i :: 0 <= i < |r| ==> r[i] == if i < |line| then line[i] else text[i]
  {
  }

  /** `fopen(..., "w+")` empties the file or makes a new one. */
  function OpenFile(w: World, p: nat, x: Process): World
    requires x.Daemon?
  {
    var f := Target(x);
    var id := if f in w.files then w.files[f].id else w.next;
    World(w.files[f := File(id, "")], if f in w.files then w.next else w.next + 1,
          w.procs[p := x.(phase := Writing, handle := id)])
  }

  /** The line goes to the opened file, whether or not the name still leads to it. */
  function WriteFile(w: World, p: nat, x: Process, flushed: bool): World
    requires x.Daemon?
  {
    var f := Target(x);
    var w' := Put(w, p, x.(phase := Moving, recorded := flushed));
    if flushed && f in w.files && w.files[f].id == x.handle then
      w'.(files := w.files[f := File(x.handle, Overwrite(w.files[f].text, PidLine(p)))])
    else w'
  }

  function Step(w: World, e: Event): World {
    match e
    case Starts(p, dir) => if p in w.procs then w else Put(w, p, Fresh(dir))
    case Forks(p, child, path) =>
      if p in w.procs && w.procs[p].Fresh? && child !in w.procs
      then Put(Gone(w, p), child, Daemon(w.procs[p].dir, path, Checking, 0, false))
      else w
    case Checks(p) =>
      if !At(w, p, Checking) then w
      else if Target(w.procs[p]) in w.files then Gone(w, p)
      else Put(w, p, w.procs[p].(phase := Opening))
    case Opens(p, ok) =>
      if !At(w, p, Opening) then w
      else if !ok then Gone(w, p)
      else OpenFile(w, p, w.procs[p])
    case Writes(p, printed, flushed) =>
      if !At(w, p, Writing) then w
      else if !printed then Gone(w, p)
      else WriteFile(w, p, w.procs[p], flushed)
    case Moves(p, ok) =>
      if !At(w, p, Moving) then w
      else if !ok then Gone(w, p)
      else Put(w, p, w.procs[p].(dir := TMP, phase := Serving))
    case Stops(p) =>
      if p in w.procs && w.procs[p].Fresh? then Gone(w, p)
      else if !At(w, p, Serving) then w
      else if Target(w.procs[p]) in w.files then Put(w, p, w.procs[p].(phase := Removing))
      else Gone(w, p)
    case Unlinks(p, ok) =>
      if !At(w, p, Removing) then w
      else if ok then Gone(w.(files := w.files - {Target(w.procs[p])}), p)
      else Gone(w, p)
    case Dies(p) => Gone(w, p)
  }

  function Run(w: World, events: seq<Event>): World {
    if events == [] then w
    else Step(Run(w, events[..|events| - 1]), events[|events| - 1])
  }

  // ----- the invariant ------------------------------------------------------------------

  /** Past its check, and so with a claim on its file. */
  predicate Claims(w: World, p: nat) {
    p in w.procs && w.procs[p].Daemon? && !w.procs[p].phase.Checking?
  }

  predicate ClaimsFile(w: World, p: nat, f: string) {
    Claims(w, p) && Target(w.procs[p]) == f
  }

  ghost predicate OneClaim(w: World) {
    forall p, q :: Claims(w, p) && Claims(w, q) && Target(w.procs[p]) == Target(w.procs[q]) ==> p == q
  }

  /** What a claimant's file holds. */
  predicate HasFile(w: World, p: nat, x: Process)
    requires x.Daemon?
  {
    && Target(x) in w.files
    && w.files[Target(x)] == File(x.handle, if x.recorded then PidLine(p) else "")
  }

  predicate ProcessOk(w: World, p: nat, x: Process) {
    x.Fresh?
    || (&& Stable(x.dir, x.path)
        && match x.phase
           case Checking => !x.recorded
           case Opening => !x.recorded && Target(x) !in w.files
           case Writing => !x.recorded && HasFile(w, p, x)
           case _ => HasFile(w, p, x))
  }

  ghost predicate Ok(w: World) {
    && OneClaim(w)
    && (forall p :: p in w.procs ==> ProcessOk(w, p, w.procs[p]))
  }

  /** The check of `e` succeeds between another process's check and open. */
  ghost predicate Races(w: World, e: Event) {
    && e.Checks? && At(w, e.pid, Checking)
    && exists q :: At(w, q, Opening) && q != e.pid && Target(w.procs[q]) == Target(w.procs[e.pid])
  }

  /** The path of a daemon that is forked does not move with it. */
  predicate Strays(w: World, e: Event) {
    && e.Forks? && e.pid in w.procs && w.procs[e.pid].Fresh? && e.child !in w.procs
    && !Stable(w.procs[e.pid].dir, e.path)
  }

  /** The process that a step belongs to. */
  function Actor(e: Event): nat {
    if e.Forks? then e.child else e.pid
  }

  /** A step touches no file but its actor's, and that only with a claim. */
  lemma StepFrame(w: World, e: Event, f: string)
    ensures SameFile(w, Step(w, e), f) || (!e.Forks? && ClaimsFile(w, e.pid, f))
  {
  }

  predicate SameFile(w: World, w': World, f: string) {
    (f in w.files <==> f in w'.files) && (f in w.files ==> w'.files[f] == w.files[f])
  }

  lemma OthersStay(w: World, e: Event, q: nat)
    requires q != Actor(e)
    ensures q in Step(w, e).procs ==> q in w.procs && Step(w, e).procs[q] == w.procs[q]
  {
  }

  /** A claim that a step gives is the actor's, by a check of a free file. */
  lemma NewClaim(w: World, e: Event, q: nat)
    requires Claims(Step(w, e), q) && !Claims(w, q)
    ensures q == Actor(e) && e == Checks(q) && At(w, q, Checking) && Target(w.procs[q]) !in w.files
    ensures At(Step(w, e), q, Opening) && Target(Step(w, e).procs[q]) == Target(w.procs[q])
  {
  }

  lemma ClaimKept(w: World, e: Event, q: nat)
    requires Claims(Step(w, e), q) && Claims(w, q) && ProcessOk(w, q, w.procs[q])
    ensures Target(Step(w, e).procs[q]) == Target(w.procs[q])
  {
  }

  lemma ClaimsStayOne(w: World, e: Event)
    requires Ok(w) && !Races(w, e)
    ensures OneClaim(Step(w, e))
  {
    var w' := Step(w, e);
    forall p, q | Claims(w', p) && Claims(w', q) && Target(w'.procs[p]) == Target(w'.procs[q])
      ensures p == q
    {
      TwoClaims(w, e, p, q);
    }
  }

  lemma TwoClaims(w: World, e: Event, p: nat, q: nat)
    requires Ok(w) && !Races(w, e)
    requires var w' := Step(w, e); Claims(w', p) && Claims(w', q) && Target(w'.procs[p]) == Target(w'.procs[q])
    ensures p == q
  {
    if Claims(w, p) {
      ClaimKept(w, e, p);
    } else {
      NewClaim(w, e, p);
    }
    if Claims(w, q) {
      ClaimKept(w, e, q);
    } else {
      NewClaim(w, e, q);
    }
  }

  /** A process that is not the actor keeps its file. */
  lemma BystanderOk(w: World, e: Event, q: nat)
    requires Ok(w) && !Races(w, e) && q != Actor(e) && q in Step(w, e).procs
    ensures ProcessOk(Step(w, e), q, Step(w, e).procs[q])
  {
    OthersStay(w, e, q);
    if Claims(w, q) {
      StepFrame(w, e, Target(w.procs[q]));
    }
  }

  lemma ActorOk(w: World, e: Event)
    requires Ok(w) && !Strays(w, e) && Actor(e) in Step(w, e).procs
    ensures ProcessOk(Step(w, e), Actor(e), Step(w, e).procs[Actor(e)])
  {
  }

  /** The invariant is kept by exactly the steps that neither race nor stray. */
  lemma StepOkExactly(w: World, e: Event)
    requires Ok(w)
    ensures Ok(Step(w, e)) <==> !Races(w, e) && !Strays(w, e)
  {
    var w' := Step(w, e);
    if Races(w, e) {
      var q :| At(w, q, Opening) && q != e.pid && Target(w.procs[q]) == Target(w.procs[e.pid]);
      assert ProcessOk(w, q, w.procs[q]);
      assert Claims(w', e.pid) && Claims(w', q) && Target(w'.procs[e.pid]) == Target(w'.procs[q]);
    } else if Strays(w, e) {
      assert !ProcessOk(w', e.child, w'.procs[e.child]);
    } else {
      ClaimsStayOne(w, e);
      forall q | q in w'.procs
        ensures ProcessOk(w', q, w'.procs[q])
      {
        if q == Actor(e) {
          ActorOk(w, e);
        } else {
          BystanderOk(w, e, q);
        }
      }
    }
  }

  // ----- runs ---------------------------------------------------------------------------

  /** No step of the run races or strays. */
  ghost predicate Safe(w: World, events: seq<Event>) {
    events != [] ==>
      var n := |events| - 1;
      Safe(w, events[..n]) && !Races(Run(w, events[..n]), events[n]) && !Strays(Run(w, events[..n]), events[n])
  }

  lemma {:induction false} RunOk(w: World, events: seq<Event>)
    requires Ok(w) && Safe(w, events)
    ensures Ok(Run(w, events))
  {
    if events != [] {
      var n := |events| - 1;
      RunOk(w, events[..n]);
      StepOkExactly(Run(w, events[..n]), events[n]);
    }
  }

  /** One process serves on a file, and the file holds its PID if the line was flushed. */
  ghost predicate Guarded(w: World) {
    && (forall p, q :: At(w, p, Serving) && At(w, q, Serving) && Target(w.procs[p]) == Target(w.procs[q]) ==> p == q)
    && (forall p :: At(w, p, Serving) ==>
          && Target(w.procs[p]) in w.files
          && var text := w.files[Target(w.procs[p])].text;
             if w.procs[p].recorded then NamesPid(text, p) else text == "")
  }

  /** A file disappears only when the process that serves on it, and that its text names,
      removes it on stopping. */
  ghost predicate RemovesOwn(w: World, e: Event) {
    forall f :: f in w.files && f !in Step(w, e).files ==>
      && e == Unlinks(e.pid, true) && At(w, e.pid, Removing) && Target(w.procs[e.pid]) == f
      && if w.procs[e.pid].recorded then NamesPid(w.files[f].text, e.pid) else w.files[f].text == ""
  }

  lemma OkGuards(w: World)
    requires Ok(w)
    ensures Guarded(w)
  {
    forall p | At(w, p, Serving)
      ensures HasFile(w, p, w.procs[p])
    {
      assert ProcessOk(w, p, w.procs[p]);
    }
    forall p | At(w, p, Serving) && w.procs[p].recorded
      ensures NamesPid(w.files[Target(w.procs[p])].text, p)
    {
      assert HasFile(w, p, w.procs[p]);
      PidLineNames(p);
    }
  }

  lemma OkRemovesOwn(w: World, e: Event)
    requires Ok(w)
    ensures RemovesOwn(w, e)
  {
    forall f | f in w.files && f !in Step(w, e).files
      ensures e == Unlinks(e.pid, true) && At(w, e.pid, Removing) && Target(w.procs[e.pid]) == f
      ensures HasFile(w, e.pid, w.procs[e.pid])
    {
      assert ProcessOk(w, e.pid, w.procs[e.pid]);
    }
    PidLineNames(e.pid);
  }

  ghost predicate GuardedWhatever(w: World) {
    Guarded(w) && forall e :: RemovesOwn(w, e)
  }

  /** At the start there are any files and no processes. */
  function Boot(files: map<string, File>, next: nat): World {
    World(files, next, map[])
  }

  /** Along every safe run, whatever crashes. */
  lemma OneServer(files: map<string, File>, next: nat, events: seq<Event>)
    requires Safe(Boot(files, next), events)
    ensures GuardedWhatever(Run(Boot(files, next), events))
  {
    var w := Run(Boot(files, next), events);
    RunOk(Boot(files, next), events);
    OkGuards(w);
    forall e
      ensures RemovesOwn(w, e)
    {
      OkRemovesOwn(w, e);
    }
  }

  // ----- when check and create are one step ---------------------------------------------

  /** A schedule in which nothing comes between a check and its open. */
  datatype Move = One(event: Event) | Claim(pid: nat, ok: bool)

  predicate IsMove(m: Move) {
    m.One? ==> !m.event.Checks? && !m.event.Opens? && (m.event.Forks? ==> IsAbsolute(m.event.path))
  }

  function EventsOf(m: Move): seq<Event> {
    match m
    case One(e) => [e]
    case Claim(p, ok) => [Checks(p), Opens(p, ok)]
  }

  function Expand(moves: seq<Move>): seq<Event> {
    if moves == [] then [] else Expand(moves[..|moves| - 1]) + EventsOf(moves[|moves| - 1])
  }

  ghost predicate NoneOpening(w: World) {
    forall p :: !At(w, p, Opening)
  }

  lemma SafeOne(w: World, events: seq<Event>, e: Event)
    requires Safe(w, events) && !Races(Run(w, events), e) && !Strays(Run(w, events), e)
    ensures Safe(w, events + [e]) && Run(w, events + [e]) == Step(Run(w, events), e)
  {
    assert (events + [e])[..|events|] == events;
  }

  /** Such a schedule with absolute paths is safe. */
  lemma {:induction false} AtomicIsSafe(w: World, moves: seq<Move>)
    requires NoneOpening(w) && forall i :: 0 <= i < |moves| ==> IsMove(moves[i])
    ensures Safe(w, Expand(moves)) && NoneOpening(Run(w, Expand(moves)))
  {
    if moves != [] {
      var before := Expand(moves[..|moves| - 1]);
      AtomicIsSafe(w, moves[..|moves| - 1]);
      match moves[|moves| - 1]
      case One(e) =>
        SafeOne(w, before, e);
        OneOpensNothing(Run(w, before), e);
      case Claim(p, ok) =>
        SafeOne(w, before, Checks(p));
        SafeOne(w, before + [Checks(p)], Opens(p, ok));
        assert (before + [Checks(p)]) + [Opens(p, ok)] == before + [Checks(p), Opens(p, ok)];
        ClaimLeavesNoneOpening(Run(w, before), p, ok);
    }
  }

  lemma OneOpensNothing(w: World, e: Event)
    requires NoneOpening(w) && !e.Checks?
    ensures NoneOpening(Step(w, e))
  {
    forall p
      ensures !At(Step(w, e), p, Opening)
    {
      assert !At(w, p, Opening);
    }
  }

  lemma ClaimLeavesNoneOpening(w: World, p: nat, ok: bool)
    requires NoneOpening(w)
    ensures NoneOpening(Step(Step(w, Checks(p)), Opens(p, ok)))
  {
    forall q
      ensures !At(Step(Step(w, Checks(p)), Opens(p, ok)), q, Opening)
    {
      assert !At(w, q, Opening);
    }
  }

  /** The promise of the PID file: with atomic claims and absolute paths, over every
      interleaving and with crashes anywhere. */
  lemma ExclusionWhenAtomic(files: map<string, File>, next: nat, moves: seq<Move>)
    requires forall i :: 0 <= i < |moves| ==> IsMove(moves[i])
    ensures GuardedWhatever(Run(Boot(files, next), Expand(moves)))
  {
    AtomicIsSafe(Boot(files, next), moves);
    OneServer(files, next, Expand(moves));
  }

  // ----- what the code does without that ------------------------------------------------

  lemma {:induction false} RunAppend(w: World, a: seq<Event>, b: seq<Event>)
    ensures Run(w, a + b) == Run(Run(w, a), b)
  {
    if b == [] {
      assert a + b == a;
    } else {
      RunAppend(w, a, b[..|b| - 1]);
      assert (a + b)[..|a + b| - 1] == a + b[..|b| - 1];
    }
  }

  lemma RunTwo(w: World, e: Event, f: Event)
    ensures Run(w, [e, f]) == Step(Step(w, e), f)
  {
    var one, two := [e], [e, f];
    assert one[..|one| - 1] == [];
    assert Run(w, one) == Step(w, e);
    assert two[..|two| - 1] == one;
  }

  /** From a passed check to serving. */
  function Finish(p: nat): seq<Event> {
    [Opens(p, true), Writes(p, true, true), Moves(p, true)]
  }

  function Serve(w: World, p: nat): World {
    Step(Step(Step(w, Opens(p, true)), Writes(p, true, true)), Moves(p, true))
  }

  lemma RunThree(w: World, d: Event, e: Event, f: Event)
    ensures Run(w, [d, e, f]) == Step(Step(Step(w, d), e), f)
  {
    RunTwo(w, d, e);
    var all := [d, e, f];
    assert all[..|all| - 1] == [d, e];
  }

  lemma RunFinish(w: World, p: nat)
    ensures Run(w, Finish(p)) == Serve(w, p)
  {
    RunThree(w, Opens(p, true), Writes(p, true, true), Moves(p, true));
  }

  /** The file ends as the daemon's line, and the daemon serves from `/tmp`. */
  lemma ServeResult(w: World, p: nat)
    requires At(w, p, Opening)
    ensures var x, f := w.procs[p], Target(w.procs[p]);
            var id := if f in w.files then w.files[f].id else w.next;
            && Serve(w, p).files == w.files[f := File(id, PidLine(p))]
            && Serve(w, p).procs == w.procs[p := Daemon(TMP, x.path, Serving, id, true)]
  {
    var x, f := w.procs[p], Target(w.procs[p]);
    var id := if f in w.files then w.files[f].id else w.next;
    var w1 := Step(w, Opens(p, true));
    var w2 := Step(w1, Writes(p, true, true));
    assert w1.files == w.files[f := File(id, "")] && Target(w1.procs[p]) == f;
    assert w2.files == w1.files[f := File(id, PidLine(p))];
    assert w2.procs == w1.procs[p := Daemon(x.dir, x.path, Moving, id, true)];
  }

  /** A daemon that passed no check reaches nothing. */
  lemma ServeNothing(w: World, p: nat)
    requires p !in w.procs
    ensures Serve(w, p) == w
  {
  }

  /** A text names one PID at most. */
  lemma NamesOne(text: string, p: nat, q: nat)
    ensures NamesPid(text, p) && NamesPid(text, q) ==> p == q
  {
  }

  /** A race played out: `q` has checked, now `p` checks, and both go on. */
  function Race(p: nat, q: nat): seq<Event> {
    [Checks(p)] + Finish(q) + Finish(p)
  }

  lemma RaceResult(w: World, p: nat, q: nat)
    requires Ok(w) && p != q && At(w, p, Checking) && At(w, q, Opening) && Target(w.procs[p]) == Target(w.procs[q])
    ensures var w', f := Run(w, Race(p, q)), Target(w.procs[p]);
            && At(w', p, Serving) && At(w', q, Serving) && Target(w'.procs[p]) == Target(w'.procs[q]) == f
            && f in w'.files && w'.files[f].text == PidLine(p) && w'.procs[q].recorded
  {
    var w1 := Step(w, Checks(p));
    assert ProcessOk(w, p, w.procs[p]) && ProcessOk(w, q, w.procs[q]);
    RunAppend(w, [Checks(p)] + Finish(q), Finish(p));
    RunAppend(w, [Checks(p)], Finish(q));
    assert [Checks(p)][..0] == [];
    RunFinish(w1, q);
    RunFinish(Serve(w1, q), p);
    ServeResult(w1, q);
    ServeResult(Serve(w1, q), p);
  }

  /** Every race can end with two daemons on one file. Only one of their PIDs is in it, and
      the other daemon removes it on stopping. */
  lemma RaceBreaks(w: World, p: nat, q: nat)
    requires Ok(w) && p != q && At(w, p, Checking) && At(w, q, Opening) && Target(w.procs[p]) == Target(w.procs[q])
    ensures Races(w, Checks(p))
    ensures var w', f := Run(w, Race(p, q)), Target(w.procs[p]);
            && !Guarded(w') && !RemovesOwn(Step(w', Stops(q)), Unlinks(q, true))
            && f in w'.files && NamesPid(w'.files[f].text, p) && !NamesPid(w'.files[f].text, q)
  {
    RaceResult(w, p, q);
    var w', f := Run(w, Race(p, q)), Target(w.procs[p]);
    PidLineNames(p);
    NamesOne(w'.files[f].text, p, q);
    RemovesForeign(w', q);
  }

  /** Whoever serves on a file that names another removes what is not its own. */
  lemma RemovesForeign(w: World, q: nat)
    requires At(w, q, Serving) && w.procs[q].recorded && Target(w.procs[q]) in w.files
    requires !NamesPid(w.files[Target(w.procs[q])].text, q)
    ensures !RemovesOwn(Step(w, Stops(q)), Unlinks(q, true))
  {
    var f, w' := Target(w.procs[q]), Step(w, Stops(q));
    assert f in w'.files && f !in Step(w', Unlinks(q, true)).files;
  }

  /** Two processes start, fork with one path, and the first child checks. */
  function RaceStart(dir: string, path: string): seq<Event> {
    [Starts(0, dir), Forks(0, 2, path)] + [Starts(1, dir), Forks(1, 3, path)] + [Checks(2)]
  }

  function Child(dir: string, path: string): Process {
    Daemon(dir, path, Checking, 0, false)
  }

  lemma ForkResult(w: World, p: nat, child: nat, dir: string, path: string)
    requires p !in w.procs && child !in w.procs && child != p
    ensures Run(w, [Starts(p, dir), Forks(p, child, path)]) == w.(procs := w.procs[child := Child(dir, path)])
  {
    RunTwo(w, Starts(p, dir), Forks(p, child, path));
    assert w.procs[p := Fresh(dir)] - {p} == w.procs;
  }

  lemma TwoChildren(dir: string, path: string)
    ensures Run(Boot(map[], 0), [Starts(0, dir), Forks(0, 2, path)] + [Starts(1, dir), Forks(1, 3, path)])
         == World(map[], 0, map[2 := Child(dir, path), 3 := Child(dir, path)])
  {
    var a, b := [Starts(0, dir), Forks(0, 2, path)], [Starts(1, dir), Forks(1, 3, path)];
    RunAppend(Boot(map[], 0), a, b);
    ForkResult(Boot(map[], 0), 0, 2, dir, path);
    ForkResult(Run(Boot(map[], 0), a), 1, 3, dir, path);
  }

  /** A racing state is reached from the start. */
  lemma RaceIsReached(dir: string, path: string)
    requires Stable(dir, path)
    ensures var w := Run(Boot(map[], 0), RaceStart(dir, path));
            && Ok(w) && At(w, 3, Checking) && At(w, 2, Opening) && Target(w.procs[2]) == Target(w.procs[3])
  {
    var forks := [Starts(0, dir), Forks(0, 2, path)] + [Starts(1, dir), Forks(1, 3, path)];
    TwoChildren(dir, path);
    RunAppend(Boot(map[], 0), forks, [Checks(2)]);
    RunOne(Run(Boot(map[], 0), forks), Checks(2));
  }

  lemma RunOne(w: World, e: Event)
    ensures Run(w, [e]) == Step(w, e)
  {
    assert [e][..0] == [];
  }

  /** Every fork in the run uses one of these paths. */
  ghost predicate ForksOnly(events: seq<Event>, allowed: string -> bool) {
    forall i :: 0 <= i < |events| && events[i].Forks? ==> allowed(events[i].path)
  }

  /** The promise over all runs, in whatever order the steps come. */
  ghost predicate KeptInAnyOrder(allowed: string -> bool) {
    forall files, next, events :: ForksOnly(events, allowed) ==> GuardedWhatever(Run(Boot(files, next), events))
  }

  /** Every path, absolute or not, has a run from the start that breaks the promise. */
  lemma SomeRunBreaks(path: string) returns (events: seq<Event>)
    ensures ForksOnly(events, p => p == path) && !Guarded(Run(Boot(map[], 0), events))
  {
    StableExactly(TMP, path);
    RaceIsReached(TMP, path);
    events := RaceStart(TMP, path) + Race(3, 2);
    RaceBreaks(Run(Boot(map[], 0), RaceStart(TMP, path)), 3, 2);
    RunAppend(Boot(map[], 0), RaceStart(TMP, path), Race(3, 2));
  }

  predicate NoDaemons(w: World) {
    forall p :: p in w.procs ==> w.procs[p].Fresh?
  }

  lemma {:induction false} NoForksNoDaemons(w: World, events: seq<Event>)
    requires NoDaemons(w) && forall i :: 0 <= i < |events| ==> !events[i].Forks?
    ensures NoDaemons(Run(w, events))
  {
    if events != [] {
      NoForksNoDaemons(w, events[..|events| - 1]);
    }
  }

  /** Without atomic claims only the empty set of paths is safe. */
  lemma NoPathIsSafeInAnyOrder(allowed: string -> bool)
    ensures KeptInAnyOrder(allowed) <==> forall path :: !allowed(path)
  {
    if forall path :: !allowed(path) {
      forall files, next, events | ForksOnly(events, allowed)
        ensures GuardedWhatever(Run(Boot(files, next), events))
      {
        var w := Run(Boot(files, next), events);
        NoForksNoDaemons(Boot(files, next), events);
        forall e
          ensures RemovesOwn(w, e)
        {
          OkRemovesOwn(w, e);
        }
      }
    } else {
      var path :| allowed(path);
      var events := SomeRunBreaks(path);
      assert ForksOnly(events, allowed);
    }
  }

  // ----- which paths are safe -----------------------------------------------------------

  predicate Uses(m: Move, allowed: string -> bool) {
    m.One? ==> !m.event.Checks? && !m.event.Opens? && (m.event.Forks? ==> allowed(m.event.path))
  }

  /** Atomic claims keep the promise for these paths, in every directory. */
  ghost predicate Kept(allowed: string -> bool) {
    forall files, next, moves ::
      (forall i :: 0 <= i < |moves| ==> Uses(moves[i], allowed))
      ==> GuardedWhatever(Run(Boot(files, next), Expand(moves)))
  }

  lemma ExpandAppend(moves: seq<Move>, m: Move)
    ensures Expand(moves + [m]) == Expand(moves) + EventsOf(m)
  {
    assert (moves + [m])[..|moves|] == moves;
  }

  /** A launch in atomic moves. */
  function StrayMoves(path: string): seq<Move> {
    [] + [One(Starts(0, ""))] + [One(Forks(0, 1, path))] + [Claim(1, true)]
    + [One(Writes(1, true, true))] + [One(Moves(1, true))]
  }

  lemma StrayRun(path: string, w: World)
    ensures Run(w, Expand(StrayMoves(path)))
         == Serve(Step(Step(Step(w, Starts(0, "")), Forks(0, 1, path)), Checks(1)), 1)
  {
    var a := [] + [One(Starts(0, ""))];
    var b := a + [One(Forks(0, 1, path))];
    var c := b + [Claim(1, true)];
    var d := c + [One(Writes(1, true, true))];
    ExpandAppend([], One(Starts(0, "")));
    ExpandAppend(a, One(Forks(0, 1, path)));
    ExpandAppend(b, Claim(1, true));
    ExpandAppend(c, One(Writes(1, true, true)));
    ExpandAppend(d, One(Moves(1, true)));
    var before := [Starts(0, ""), Forks(0, 1, path)];
    assert Expand(b) == before;
    assert Expand(StrayMoves(path)) == before + ([Checks(1)] + Finish(1));
    RunAppend(w, before, [Checks(1)] + Finish(1));
    RunTwo(w, Starts(0, ""), Forks(0, 1, path));
    RunAppend(Run(w, before), [Checks(1)], Finish(1));
    assert [Checks(1)][..0] == [];
    RunFinish(Step(Run(w, before), Checks(1)), 1);
  }

  /** A daemon with a relative path leaves its file behind when it moves to `/tmp`. */
  lemma RelativeStrays(path: string)
    requires !IsAbsolute(path)
    ensures !Guarded(Run(Boot(map[], 0), Expand(StrayMoves(path))))
  {
    var w := Boot(map[], 0);
    StrayRun(path, w);
    StableExactly("", path);
    var w1 := Step(Step(Step(w, Starts(0, "")), Forks(0, 1, path)), Checks(1));
    ServeResult(w1, 1);
    assert At(Serve(w1, 1), 1, Serving);
  }

  lemma StrayUses(path: string, moves: seq<Move>, allowed: string -> bool)
    requires allowed(path) && moves == StrayMoves(path)
    ensures forall i :: 0 <= i < |moves| ==> Uses(moves[i], allowed)
  {
  }

  lemma AbsoluteKept(allowed: string -> bool, files: map<string, File>, next: nat, moves: seq<Move>)
    requires forall path :: allowed(path) ==> IsAbsolute(path)
    requires forall i :: 0 <= i < |moves| ==> Uses(moves[i], allowed)
    ensures GuardedWhatever(Run(Boot(files, next), Expand(moves)))
  {
    forall i | 0 <= i < |moves|
      ensures IsMove(moves[i])
    {
      assert Uses(moves[i], allowed);
    }
    ExclusionWhenAtomic(files, next, moves);
  }

  /** The promise holds exactly for sets of absolute paths. */
  lemma AbsolutePathsExactly(allowed: string -> bool)
    ensures Kept(allowed) <==> forall path :: allowed(path) ==> IsAbsolute(path)
  {
    if forall path :: allowed(path) ==> IsAbsolute(path) {
      forall files, next, moves | forall i :: 0 <= i < |moves| ==> Uses(moves[i], allowed)
        ensures GuardedWhatever(Run(Boot(files, next), Expand(moves)))
      {
        AbsoluteKept(allowed, files, next, moves);
      }
    } else {
      var path :| allowed(path) && !IsAbsolute(path);
      var moves := StrayMoves(path);
      RelativeStrays(path);
      StrayUses(path, moves, allowed);
    }
  }

  // ----- files that nobody owns ---------------------------------------------------------

  /** No process has a claim on the file. */
  ghost predicate Unclaimed(w: World, f: string) {
    forall p :: !ClaimsFile(w, p, f)
  }

  /** A file left over by a crash stays as it is, and nobody ever serves on it again. */
  lemma {:induction false} StaleStays(w: World, events: seq<Event>, f: string)
    requires Ok(w) && Safe(w, events) && f in w.files && Unclaimed(w, f)
    ensures var w' := Run(w, events); f in w'.files && w'.files[f] == w.files[f] && Unclaimed(w', f)
  {
    if events != [] {
      var n := |events| - 1;
      StaleStays(w, events[..n], f);
      RunOk(w, events[..n]);
      StaleStep(Run(w, events[..n]), events[n], f);
    }
  }

  lemma StaleStep(w: World, e: Event, f: string)
    requires Ok(w) && f in w.files && Unclaimed(w, f)
    ensures SameFile(w, Step(w, e), f) && Unclaimed(Step(w, e), f)
  {
    StepFrame(w, e, f);
    assert !ClaimsFile(w, e.pid, f);
    forall p
      ensures !ClaimsFile(Step(w, e), p, f)
    {
      assert !ClaimsFile(w, p, f);
      if Claims(Step(w, e), p) {
        if Claims(w, p) {
          assert ProcessOk(w, p, w.procs[p]);
          ClaimKept(w, e, p);
        } else {
          NewClaim(w, e, p);
        }
      }
    }
  }

  /** A launch that nothing disturbs, from the fork on. */
  function Launch(p: nat, child: nat, path: string): seq<Event> {
    [Forks(p, child, path), Checks(child)] + Finish(child)
  }

  /** It reaches service exactly when there is no file. */
  lemma LaunchServesExactly(w: World, p: nat, child: nat, path: string)
    requires p in w.procs && w.procs[p].Fresh? && child !in w.procs
    ensures At(Run(w, Launch(p, child, path)), child, Serving) <==> Resolve(w.procs[p].dir, path) !in w.files
  {
    var w1 := Step(Step(w, Forks(p, child, path)), Checks(child));
    RunAppend(w, [Forks(p, child, path), Checks(child)], Finish(child));
    RunTwo(w, Forks(p, child, path), Checks(child));
    RunFinish(w1, child);
    if At(w1, child, Opening) {
      ServeResult(w1, child);
    } else {
      ServeNothing(w1, child);
    }
  }

  /** A stop that nothing disturbs frees the name, and leaves every other file alone. */
  lemma StopFrees(w: World, p: nat)
    requires Ok(w) && At(w, p, Serving)
    ensures var w' := Run(w, [Stops(p), Unlinks(p, true)]);
            w'.files == w.files - {Target(w.procs[p])} && w'.procs == w.procs - {p}
  {
    assert ProcessOk(w, p, w.procs[p]);
    RunTwo(w, Stops(p), Unlinks(p, true));
    assert Step(w, Stops(p)).procs - {p} == w.procs - {p};
  }
}
