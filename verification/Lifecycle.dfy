/**
 The calls of src/common/utils/daemon.c on one process, tied to the steps of `PidFile`.

 Each method here runs without interruption; what other processes do in between is the
 matter of `PidFile`, whose steps the methods take in the same order.
 */
module Lifecycle {
  import opened Common
  import opened PidFile

  class Host {
    var files: map<string, File>
    var next: nat

    constructor (files: map<string, File>, next: nat)
      ensures this.files == files && this.next == next
    {
      this.files := files;
      this.next := next;
    }
  }

  /** A process; `pidFile` is the static variable, and `handle` and `recorded` are as in
      `PidFile.Process`. */
  class Image {
    var pid: nat
    var dir: string
    var pidFile: Option<string>
    var alive: bool
    ghost var handle: nat
    ghost var recorded: bool

    constructor (pid: nat, dir: string)
      ensures this.pid == pid && this.dir == dir && pidFile == None && alive
    {
      this.pid := pid;
      this.dir := dir;
      pidFile := None;
      alive := true;
    }

    ghost function Value(phase: Phase): Process
      reads this
    {
      match pidFile
      case None => Fresh(dir)
      case Some(path) => Daemon(dir, path, phase, handle, recorded)
    }

    predicate Exists(host: Host)
      reads this, host
    {
      pidFile.Some? && Resolve(dir, pidFile.value) in host.files
    }
  }

  /** The host, the process at the given phase, and all other processes. */
  ghost function View(host: Host, image: Image, phase: Phase, others: map<nat, Process>): World
    reads host, image
  {
    World(host.files, host.next, if image.alive then others[image.pid := image.Value(phase)] else others)
  }

  /** Which calls into the system succeed. */
  datatype Luck = Luck(forks: bool, leads: bool, opens: bool, prints: bool, flushes: bool, moves: bool)

  /** The file appears as soon as it is opened, whatever comes after. */
  function FilesAfter(files: map<string, File>, next: nat, f: string, pid: nat, luck: Luck): map<string, File> {
    if f in files || !luck.opens then files
    else files[f := File(next, if luck.prints && luck.flushes then PidLine(pid) else "")]
  }

  function NextAfter(files: map<string, File>, next: nat, f: string, luck: Luck): nat {
    if f in files || !luck.opens then next else next + 1
  }

  /** One file more, and what it says: the PID if the line came through, or nothing yet. */
  predicate AddsFile(before: map<string, File>, after: map<string, File>, f: string, pid: nat, written: bool) {
    && after.Keys == before.Keys + {f} && (forall g :: g in before && g != f ==> after[g] == before[g])
    && if written then NamesPid(after[f].text, pid) else after[f].text == ""
  }

  lemma FilesAfterExactly(files: map<string, File>, next: nat, f: string, pid: nat, luck: Luck)
    ensures var after := FilesAfter(files, next, f, pid, luck);
            if f in files || !luck.opens then after == files
            else AddsFile(files, after, f, pid, luck.prints && luck.flushes)
  {
    PidLineNames(pid);
  }

  method WritePid(host: Host, image: Image, luck: Luck) returns (ret: Errno)
    requires image.pidFile.Some?
    modifies host, image`handle, image`recorded
    ensures ret == if old(image.Exists(host)) then EINVAL else if luck.opens && luck.prints then EOK else EIO
    ensures var f := Resolve(image.dir, image.pidFile.value);
            && host.files == FilesAfter(old(host.files), old(host.next), f, image.pid, luck)
            && host.next == NextAfter(old(host.files), old(host.next), f, luck)
    ensures ret == EOK ==> image.handle == old(host.next) && image.recorded == luck.flushes
    ensures old(image.Exists(host)) || !luck.opens ==> host.files == old(host.files)
    ensures !old(image.Exists(host)) && luck.opens ==>
              AddsFile(old(host.files), host.files, Resolve(image.dir, image.pidFile.value), image.pid,
                       luck.prints && luck.flushes)
  {
    FilesAfterExactly(host.files, host.next, Resolve(image.dir, image.pidFile.value), image.pid, luck);
    if image.Exists(host) {
      return EINVAL;
    }
    if !luck.opens {
      return EIO;
    }
    var f := Resolve(image.dir, image.pidFile.value);
    var id := host.next;
    image.handle := id;
    host.files := host.files[f := File(id, "")];
    host.next := host.next + 1;
    if !luck.prints {
      return EIO;
    }
    if luck.flushes {
      host.files := host.files[f := File(id, PidLine(image.pid))];
    }
    image.recorded := luck.flushes;
    ret := EOK;
  }

  method RemovePid(host: Host, image: Image, unlinks: bool) returns (ret: Errno)
    modifies host`files
    ensures ret == if old(image.Exists(host)) && !unlinks then EIO else EOK
    ensures host.files == if old(image.Exists(host)) && unlinks
                          then old(host.files) - {Resolve(image.dir, image.pidFile.value)}
                          else old(host.files)
  {
    if image.Exists(host) {
      if !unlinks {
        return EIO;
      }
      host.files := host.files - {Resolve(image.dir, image.pidFile.value)};
    }
    ret := EOK;
  }

  /** The steps of a call of `become_daemon`. */
  function Becomes(p: nat, child: nat, path: string, luck: Luck): seq<Event> {
    if !luck.forks then [Dies(p)]
    else if !luck.leads then [Forks(p, child, path), Dies(child)]
    else [Forks(p, child, path), Checks(child)]
         + [Opens(child, luck.opens), Writes(child, luck.prints, luck.flushes), Moves(child, luck.moves)]
  }

  predicate Succeeds(files: map<string, File>, f: string, luck: Luck) {
    luck.forks && luck.leads && f !in files && luck.opens && luck.prints && luck.moves
  }

  /** Where these steps lead when no others come in between. */
  lemma BecomesResult(w: World, p: nat, child: nat, path: string, luck: Luck)
    requires p in w.procs && w.procs[p].Fresh? && child !in w.procs
    ensures var f := Resolve(w.procs[p].dir, path);
            var w', others := Run(w, Becomes(p, child, path, luck)), w.procs - {p};
            && w'.files == (if luck.forks && luck.leads then FilesAfter(w.files, w.next, f, child, luck) else w.files)
            && w'.next == (if luck.forks && luck.leads then NextAfter(w.files, w.next, f, luck) else w.next)
            && w'.procs == if Succeeds(w.files, f, luck)
                           then others[child := Daemon(TMP, path, Serving, w.next, luck.flushes)] else others
  {
    var w1 := Step(w, Forks(p, child, path));
    if !luck.forks {
      assert [Dies(p)][..0] == [];
    } else if !luck.leads {
      RunTwo(w, Forks(p, child, path), Dies(child));
      assert w1.procs - {child} == w.procs - {p};
    } else {
      var rest := [Opens(child, luck.opens), Writes(child, luck.prints, luck.flushes), Moves(child, luck.moves)];
      RunAppend(w, [Forks(p, child, path), Checks(child)], rest);
      RunTwo(w, Forks(p, child, path), Checks(child));
      assert w1.procs - {child} == w.procs - {p};
      RestResult(Step(w1, Checks(child)), child, luck);
    }
  }

  lemma RestResult(w: World, p: nat, luck: Luck)
    ensures var w' := Run(w, [Opens(p, luck.opens), Writes(p, luck.prints, luck.flushes), Moves(p, luck.moves)]);
            if !At(w, p, Opening) then p !in w.procs ==> w' == w
            else
              var x, f := w.procs[p], Target(w.procs[p]);
              f !in w.files ==>
                && w'.files == FilesAfter(w.files, w.next, f, p, luck) && w'.next == NextAfter(w.files, w.next, f, luck)
                && w'.procs == if luck.opens && luck.prints && luck.moves
                               then (w.procs - {p})[p := Daemon(TMP, x.path, Serving, w.next, luck.flushes)]
                               else w.procs - {p}
  {
    var w1 := Step(w, Opens(p, luck.opens));
    var w2 := Step(w1, Writes(p, luck.prints, luck.flushes));
    RunThree(w, Opens(p, luck.opens), Writes(p, luck.prints, luck.flushes), Moves(p, luck.moves));
    assert w1.procs - {p} == w.procs - {p} == w2.procs - {p};
  }

  /** The image goes on as the child, as `fork` has it; the parent exits. */
  method BecomeDaemon(host: Host, image: Image, path: string, child: nat, luck: Luck, ghost others: map<nat, Process>)
    requires image.pidFile == None && image.alive
    requires image.pid !in others && child !in others && child != image.pid
    modifies host, image
    ensures View(host, image, Serving, others)
         == Run(old(View(host, image, Serving, others)), Becomes(old(image.pid), child, path, luck))
    ensures image.alive <==> luck.forks && luck.leads && luck.opens && luck.prints && luck.moves
                             && Resolve(old(image.dir), path) !in old(host.files)
    ensures image.alive ==> image.pid == child && image.dir == "/tmp" && image.pidFile == Some(path)
    ensures var f := Resolve(old(image.dir), path);
            if luck.forks && luck.leads && luck.opens && f !in old(host.files)
            then AddsFile(old(host.files), host.files, f, child, luck.prints && luck.flushes)
            else host.files == old(host.files)
  {
    ghost var w := View(host, image, Serving, others);
    BecomesResult(w, image.pid, child, path, luck);
    FilesAfterExactly(host.files, host.next, Resolve(image.dir, path), child, luck);
    assert w.procs - {image.pid} == others;
    image.pidFile := Some(path);
    if !luck.forks {
      image.alive := false;
      return;
    }
    image.pid := child;
    if !luck.leads {
      image.alive := false;
      return;
    }
    var ret := WritePid(host, image, luck);
    if ret != EOK {
      image.alive := false;
      return;
    }
    if !luck.moves {
      image.alive := false;
      return;
    }
    image.dir := TMP;
  }

  /** A process that never became a daemon removes nothing. */
  method StopDaemon(host: Host, image: Image, unlinks: bool, ghost others: map<nat, Process>)
    requires image.alive && image.pid !in others
    modifies host`files, image`alive
    ensures View(host, image, Removing, others)
         == Run(old(View(host, image, Serving, others)), [Stops(image.pid), Unlinks(image.pid, unlinks)])
    ensures host.files == if old(image.Exists(host)) && unlinks
                          then old(host.files) - {Resolve(image.dir, image.pidFile.value)}
                          else old(host.files)
  {
    ghost var w, p := View(host, image, Serving, others), image.pid;
    RunTwo(w, Stops(p), Unlinks(p, unlinks));
    assert w.procs - {p} == others && Step(w, Stops(p)).procs - {p} == others;
    var ret := RemovePid(host, image, unlinks);
    image.alive := false;
  }
}
