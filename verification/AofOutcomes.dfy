/** What the operations of the append-only protocol achieve, as opposed to what they keep: which
    commands a flush, a stop and a restart make of the buffer, and where a rewrite and a start of
    the log end when everything works, and when something fails. */
module AofOutcomes {
  import opened ByteStrings
  import opened AofManifest
  import opened AofProtocol

  // ------------------------------------------------------------------------------
  // The data set
  // ------------------------------------------------------------------------------

  /** The commands that were executed by some events. */
  function Executed(es: seq<Event>): History {
    if |es| == 0 then []
    else
      var e := es[|es| - 1];
      Executed(es[..|es| - 1]) + if e.Feed? then [Done(e.dictid, e.cmd)] else []
  }

  /** Only an executed command and a restart change the data set. */
  lemma DataSetStep(s: State, e: Event, start: nat)
    requires Possible(s, e)
    ensures e.Feed? ==> Apply(s, e, start).mem == s.mem + [Done(e.dictid, e.cmd)]
    ensures !e.Feed? && !e.Restart? ==> Apply(s, e, start).mem == s.mem
  {
    hide RunItems, LoadIncr, Recover, NewIncr, NewBase, MarkRewritten, Append;
  }

  /** Between two restarts the data set is what it was, and then every command that was executed,
      whatever rewrites start, end or fail and whether the log is on or off. */
  lemma {:induction false} DataSet(ss: seq<State>, es: seq<Event>, start: nat, safe: bool, i: nat, k: nat)
    requires IsRun(ss, es, start, safe) && i <= k < |ss|
    requires forall j :: i <= j < k ==> !es[j].Restart?
    ensures ss[k].mem == ss[i].mem + Executed(es[i..k])
  {
    hide Apply, Possible, Allowed;
    if i < k {
      DataSet(ss, es, start, safe, i, k - 1);
      DataSetStep(ss[k - 1], es[k - 1], start);
      assert es[i..k][..k - 1 - i] == es[i..k - 1] && es[i..k][k - 1 - i] == es[k - 1];
    } else {
      assert es[i..k] == [];
    }
  }

  /** A crash and a start: the data set is what the files give, short of exactly the commands that
      were in the buffer, and nothing of the process is left. */
  lemma RestartLoads(s: State, start: nat)
    requires Inv(s, start) && s.aof == On
    ensures var t, r := DoRestart(s, start), Recover(s.disk, s.diskMan, start);
            && r.Data? && t.mem == r.h && t.mem <= s.mem && |t.mem| + Commands(s.buf) == |s.mem|
            && t.buf == [] && t.child == NoChild && t.selected == -1 && t.disk == s.disk && t.diskMan == s.diskMan
            && SameFiles(t.man, s.diskMan) && t.man.history == s.diskMan.history
            && |t.man.incr| > 0 && t.fd == Named(t.man.incr[|t.man.incr| - 1].file)
            && t.aof == On && t.phase == DeletingHistory(false, false)
  {
    InvSafe(s, start);
    ReloadedSame(s.diskMan);
    hide Inv, RunItems, Commands, LoadIncr;
  }

  // ------------------------------------------------------------------------------
  // The buffer
  // ------------------------------------------------------------------------------

  /** An executed command is logged exactly if the log is on, or waits for a rewrite whose child is
      running; a SELECT goes in front of it exactly if the command needs another database than the
      one the log is in. */
  lemma FeedLogs(s: State, dictid: int, cmd: Command)
    requires dictid >= -1
    ensures var t := FeedLog(s, dictid, cmd);
            var logged := s.aof == On || (s.aof == WaitRewrite && s.child.Child?);
            && t == s.(mem := t.mem, buf := t.buf, selected := t.selected)
            && (!logged ==> t.buf == s.buf)
            && (logged && (dictid == -1 || dictid == s.selected) ==> t.buf == s.buf + [Run(cmd, dictid == -1)])
            && (logged && dictid != -1 && dictid != s.selected ==>
                  t.buf == s.buf + [Select(dictid), Run(cmd, false)])
            && t.selected == if s.aof == Off || dictid == -1 then s.selected else dictid
  {}

  /** What a log that is on gives after a flush of `n` items, or after it was turned off with one. */
  lemma FlushedLog(s: State, n: nat, d: map<File, Content>, start: nat)
    requires Inv(s, start) && s.aof == On && d == Append(s.disk, s.fd, s.buf[..Min(n, |s.buf|)])
    ensures var k, r, q := Min(n, |s.buf|), Recover(s.disk, s.diskMan, start), Recover(d, s.diskMan, start);
            && r.Data? && q.Data? && (q.h, q.cur) == RunItems(r.h, r.cur, s.buf[..k])
            && RunItems(q.h, q.cur, s.buf[k..]).0 == s.mem
  {
    var k, last := Min(n, |s.buf|), s.man.incr[|s.man.incr| - 1].file;
    var items := s.disk[last].items;
    var b := Before(s.disk, s.man, start);
    LogRecovers(s, start);
    RecoverLast(s.disk, s.man, start);
    AppendPresent(s.disk, s.man, s.fd, s.buf[..k]);
    BeforeFrame(s.disk, d, s.man, s.fd, start);
    RecoverLast(d, s.man, start);
    assert Recover(s.disk, s.diskMan, start) == Recover(s.disk, s.man, start);
    assert Recover(d, s.diskMan, start) == Recover(d, s.man, start);
    assert d[last].items == items + s.buf[..k];
    hide RunItems, Inv, Recover, Before;
    RunItemsAppend(b.h, start, items, s.buf[..k]);
    var r := Recover(s.disk, s.diskMan, start);
    assert s.buf[..k] + s.buf[k..] == s.buf;
    RunItemsAppend(r.h, r.cur, s.buf[..k], s.buf[k..]);
  }

  /** A flush makes the commands it moves durable: a crash behind it loses only the rest, and one
      behind a flush of the whole buffer loses nothing. */
  lemma FlushDurable(s: State, start: nat, n: nat)
    requires Inv(s, start) && s.aof == On && s.phase == Idle
    ensures var t := FlushItems(s, n);
            var r, q := Recover(s.disk, s.diskMan, start), Recover(t.disk, t.diskMan, start);
            && t.buf == s.buf[Min(n, |s.buf|)..] && t.mem == s.mem
            && r.Data? && q.Data? && r.h <= q.h <= s.mem
            && |q.h| == |r.h| + Commands(s.buf[..Min(n, |s.buf|)])
            && (n >= |s.buf| ==> t.buf == [] && q.h == s.mem)
  {
    var k := Min(n, |s.buf|);
    var t := FlushItems(s, n);
    FlushedLog(s, n, t.disk, start);
    hide RunItems, Inv, Recover, Commands, Append;
    var r, q := Recover(s.disk, s.diskMan, start), Recover(t.disk, t.diskMan, start);
    RunItemsExtends(r.h, r.cur, s.buf[..k]);
    RunItemsExtends(q.h, q.cur, s.buf[k..]);
    if n >= |s.buf| {
      assert s.buf[k..] == [];
      RunItemsNone(q.h, q.cur);
    }
  }

  /** Turning the log off: the files give the data set short of the commands its flush could not
      move, and the child, its file and the buffer are gone. */
  lemma StopDurable(s: State, start: nat, n: nat)
    requires Inv(s, start) && s.aof == On && s.phase == Idle
    ensures var t := DoStop(s, n);
            var q := Recover(t.disk, t.diskMan, start);
            && t.aof == Off && t.fd == NoFd && t.buf == [] && t.child == NoChild && t.selected == -1
            && t.mem == s.mem && t.man == s.man && t.diskMan == s.diskMan
            && (s.child.Child? ==> TempRewrite(s.child.pid) !in t.disk)
            && q.Data? && q.h <= s.mem && |s.mem| == |q.h| + Commands(s.buf[Min(n, |s.buf|)..])
  {
    var k := Min(n, |s.buf|);
    var u := FlushItems(s, n);
    var d := u.disk;
    FlushedLog(s, n, d, start);
    var q := Recover(d, s.diskMan, start);
    RunItemsExtends(q.h, q.cur, s.buf[k..]);
    StopSame(s, start, n);
    hide RunItems, Inv, Recover, Commands, Append;
  }

  lemma StopSame(s: State, start: nat, n: nat)
    requires Inv(s, start) && s.aof == On && s.phase == Idle
    ensures Recover(DoStop(s, n).disk, s.diskMan, start) == Recover(FlushItems(s, n).disk, s.diskMan, start)
  {
    FlushKeeps(s, start, n);
    var u := FlushItems(s, n);
    assert Present(u.disk, s.diskMan) && Valid(s.diskMan);
    hide Inv, RunItems, Recover, FlushItems, Present, Valid;
    if s.child.Child? {
      ChildFileGone(u.disk, s.diskMan, s.child.pid, start);
    }
  }

  lemma ChildFileGone(d: map<File, Content>, m: Manifest, pid: nat, start: nat)
    requires Valid(m) && Present(d, m)
    ensures Recover(d - {TempRewrite(pid)}, m, start) == Recover(d, m, start)
  {
    var f := TempRewrite(pid);
    NotLive(m, f);
    OtherFile(d, d - {f}, m, f);
    SameRecovery(d, d - {f}, m, start);
  }

  lemma SameRecovery(d: map<File, Content>, e: map<File, Content>, m: Manifest, start: nat)
    requires Present(d, m) && Agree(d, e, m, NoFd)
    ensures Recover(d, m, start) == Recover(e, m, start)
  {
    forall i | 0 <= i < |m.incr|
      ensures m.incr[i].file in d && m.incr[i].file in e && d[m.incr[i].file] == e[m.incr[i].file]
    {
      assert Live(m, m.incr[i].file);
    }
    if |m.base| > 0 {
      assert Live(m, m.base[0].file);
    }
    var b := LoadBase(d, m);
    if b.Data? {
      LoadIncrFrame(d, e, m.incr, b.h, start);
    }
  }

  // ------------------------------------------------------------------------------
  // A rewrite of a running log
  // ------------------------------------------------------------------------------

  /** A child has been forked: the log goes on in a new incr file that the manifest on disk names. */
  lemma RewriteForks(s: State, n: nat, pid: nat, start: nat) returns (t: State)
    requires Inv(s, start) && s.phase == Idle && s.aof == On && s.child == NoChild && n >= |s.buf|
    ensures Reaches(s, t, start, true)
    ensures t == s.(child := Child(pid, s.mem, Running), buf := [], selected := -1,
                    man := NewIncr(s.man), diskMan := NewIncr(s.man), fd := Named(IncrFile(s.man.incrSeq + 1)),
                    disk := Append(s.disk, s.fd, s.buf)[IncrFile(s.man.incrSeq + 1) := Log([])])
  {
    assert s.fd != NoFd;
    assert s.buf[..|s.buf|] == s.buf && s.buf[|s.buf|..] == [];
    NewIncrSeq(s.man);
    ReachesSelf(s, start, true);
    hide RunItems, LoadIncr, Reaches, Inv, Append, NewIncr, Recover;
    var a := FlushedFirst(s, n, start);
    ReachesMore(s, a, OpenNew(true), start, true);
    var b := Open(a, true);
    ReachesMore(s, b, PersistNew(Written), start, true);
    var c := WriteNew(b, Written);
    ReachesMore(s, c, Fork(true, pid), start, true);
    t := DoFork(c, true, pid);
  }

  lemma FlushedFirst(s: State, n: nat, start: nat) returns (a: State)
    requires s.phase == Idle && s.aof == On && s.child == NoChild && n >= |s.buf| && s.fd != NoFd
    ensures Reaches(s, a, start, true)
    ensures a == s.(buf := [], selected := -1, disk := Append(s.disk, s.fd, s.buf), phase := Opening(false))
  {
    hide RunItems, LoadIncr, Reaches, Append, Recover;
    assert s.buf[..|s.buf|] == s.buf && s.buf[|s.buf|..] == [];
    ReachesSelf(s, start, true);
    ReachesMore(s, s, BeginRewrite(n), start, true);
    a := Begin(s, n, false);
  }

  lemma NewIncrSeq(m: Manifest)
    ensures NewIncr(m).incrSeq == m.incrSeq + 1 && NewIncr(m).base == m.base && NewIncr(m).baseSeq == m.baseSeq
    ensures NewIncr(m).history == m.history
    ensures NewIncr(m).incr == m.incr + [Info(IncrFile(m.incrSeq + 1), m.incrSeq + 1, Incr)]
  {}

  /** A log that is on and whose child has ended well; the history files are still there. */
  lemma RewriteCommits(o: State, s: State, rdb: bool, start: nat) returns (t: State)
    requires Reaches(o, s, start, true)
    requires s.phase == Idle && s.aof == On && s.child.Child? && s.child.ended == Running
    requires s.fd.Named? && s.fd.file.IncrFile?
    ensures Reaches(o, t, start, true)
    ensures var m := MarkRewritten(NewBase(s.man, rdb), true);
            && t.phase == DeletingHistory(true, false) && t.man == m && t.diskMan == m
            && t.disk == (s.disk - {TempRewrite(s.child.pid)})[
                           BaseFile(NewBase(s.man, rdb).baseSeq, rdb) := Snapshot(s.child.snapshot)]
            && t.aof == On && t.child == s.child.(ended := Succeeded)
            && t.mem == s.mem && t.buf == s.buf && t.selected == s.selected && t.fd == s.fd
  {
    hide RunItems, LoadIncr, Reaches, MarkRewritten, NewBase, Recover;
    ReachesMore(o, s, ChildEnds(true), start, true);
    var a := EndChild(s, true);
    ReachesMore(o, a, Handle(rdb), start, true);
    var b := a.(phase := RenamingBase(rdb));
    ReachesMore(o, b, RenameBase(true), start, true);
    var c := DoRenameBase(b, true);
    ReachesMore(o, c, PersistDone(Written), start, true);
    t := WriteDone(c, Written);
    assert (s.disk[TempRewrite(s.child.pid) := Snapshot(s.child.snapshot)]) - {TempRewrite(s.child.pid)} ==
           s.disk - {TempRewrite(s.child.pid)};
  }

  function Files(infos: seq<Info>): (r: set<File>)
    ensures forall f :: f in r <==> exists i :: 0 <= i < |infos| && infos[i].file == f
  {
    set i | 0 <= i < |infos| :: infos[i].file
  }

  /** All history files are unlinked, one after the other, and the manifest forgets them. */
  lemma {:induction false} HistoryDeleted(o: State, s: State, start: nat) returns (t: State)
    requires Reaches(o, s, start, true) && s.phase.DeletingHistory? && (s.phase.some || |s.man.history| > 0)
    requires s.fd.Named? ==> s.fd.file !in Files(s.man.history)
    ensures Reaches(o, t, start, true)
    ensures t == s.(man := s.man.(history := []), disk := s.disk - Files(s.man.history),
                    phase := PersistingHistory(s.phase.finishing))
    decreases |s.man.history|
  {
    hide RunItems, LoadIncr, Reaches, Recover;
    var h := s.man.history;
    ReachesMore(o, s, DeleteHistory(true), start, true);
    var u := DoDelete(s, true);
    if |h| == 0 {
      t := u;
      assert s.disk - Files(h) == s.disk;
    } else {
      FilesFirst(h);
      t := HistoryDeleted(o, u, start);
      assert s.disk - {h[0].file} - Files(h[1..]) == s.disk - Files(h);
    }
  }

  lemma FilesFirst(h: seq<Info>)
    requires |h| > 0
    ensures Files(h) == {h[0].file} + Files(h[1..])
  {
    var r := h[1..];
    forall f | f in Files(h) ensures f == h[0].file || f in Files(r) {
      var i :| 0 <= i < |h| && h[i].file == f;
      assert i > 0 ==> r[i - 1].file == f;
    }
    forall f | f in Files(r) ensures f in Files(h) {
      var i :| 0 <= i < |r| && r[i].file == f;
      assert h[i + 1].file == f;
    }
    assert h[0].file in Files(h);
  }

  /** The end of a committed rewrite: history deleted, manifest persisted, child forgotten. */
  lemma RewriteFinishes(o: State, s: State, start: nat) returns (t: State)
    requires Reaches(o, s, start, true) && s.phase == DeletingHistory(true, false) && |s.man.history| > 0
    requires s.aof == On && s.child.Child?
    requires s.fd.Named? && s.fd.file.IncrFile? && s.fd.file !in Files(s.man.history)
    ensures Reaches(o, t, start, true)
    ensures var m := s.man.(history := []);
            t == s.(man := m, diskMan := m, phase := Idle, child := NoChild,
                    disk := s.disk - Files(s.man.history) - {TempRewrite(s.child.pid)})
  {
    hide RunItems, LoadIncr, Reaches, Recover;
    var a := HistoryDeleted(o, s, start);
    ReachesMore(o, a, PersistHistory(Written), start, true);
    var b := Finish(a.(diskMan := a.man), true);
    ReachesMore(o, b, Clean, start, true);
    t := DoClean(b);
  }

  /** What the manifest says after a rewrite, and which files are history then. */
  lemma RewrittenManifest(m: Manifest, rdb: bool)
    requires Valid(m) && |m.incr| > 0
    ensures var n := NewIncr(m); var r := MarkRewritten(NewBase(n, rdb), true);
            && r.base == [Info(BaseFile(m.baseSeq + 1, rdb), m.baseSeq + 1, Base)]
            && r.incr == [Info(IncrFile(m.incrSeq + 1), m.incrSeq + 1, Incr)]
            && r.baseSeq == m.baseSeq + 1 && r.incrSeq == m.incrSeq + 1 && NewBase(n, rdb).baseSeq == m.baseSeq + 1
            && |r.history| > 0 && Files(r.history) == Files(m.incr) + Files(m.base) + Files(m.history)
            && BaseFile(m.baseSeq + 1, rdb) !in Files(r.history) && IncrFile(m.incrSeq + 1) !in Files(r.history)
  {
    NewIncrValid(m);
    var n := NewIncr(m);
    FinishedRewrite(n, rdb);
    assert n.incr[..|n.incr| - 1] == m.incr;
    var r := MarkRewritten(NewBase(n, rdb), true);
    assert r.history == AllHistory(m.incr) + AllHistory(m.base) + m.history;
    FilesOfThree(m.incr, m.base, m.history);
    forall f | f in Files(r.history) ensures f != BaseFile(m.baseSeq + 1, rdb) && f != IncrFile(m.incrSeq + 1) {
      var i :| 0 <= i < |r.history| && r.history[i].file == f;
      assert Obsolete(r, r.history[i]);
    }
  }

  lemma FilesOfThree(a: seq<Info>, b: seq<Info>, c: seq<Info>)
    ensures Files(AllHistory(a) + AllHistory(b) + c) == Files(a) + Files(b) + Files(c)
  {
    var x, y := AllHistory(a), AllHistory(b);
    var h := x + y + c;
    forall i | 0 <= i < |a| ensures a[i].file in Files(h) {
      assert h[i].file == a[i].file;
    }
    forall i | 0 <= i < |b| ensures b[i].file in Files(h) {
      assert h[|a| + i].file == b[i].file;
    }
    forall i | 0 <= i < |c| ensures c[i].file in Files(h) {
      assert h[|a| + |b| + i].file == c[i].file;
    }
  }

  /** The files behind a rewrite: the new ones are there, the earlier ones are not. */
  lemma RewrittenFiles(d: map<File, Content>, incr: File, base: File, temp: File, gone: set<File>, h: History,
                       a: map<File, Content>, b: map<File, Content>, t: map<File, Content>)
    requires a == d[incr := Log([])] && b == (a - {temp})[base := Snapshot(h)] && t == b - gone - {temp}
    requires incr != temp && base != temp && incr != base && incr !in gone && base !in gone
    ensures base in t && t[base] == Snapshot(h) && incr in t && t[incr] == Log([]) && temp !in t
    ensures forall f :: f in gone ==> f !in t
  {}

  /** A rewrite in which everything works: the log is one base with the data set and one empty incr
      file, the manifest in memory and on disk says so, and every file it named before is gone. */
  lemma RewriteCompletes(s: State, n: nat, pid: nat, rdb: bool, start: nat) returns (t: State)
    requires Inv(s, start) && s.phase == Idle && s.aof == On && s.child == NoChild && n >= |s.buf|
    ensures Reaches(s, t, start, true)
    ensures t.aof == On && t.phase == Idle && t.child == NoChild && t.mem == s.mem && t.buf == []
    ensures t.man == Manifest([Info(BaseFile(s.man.baseSeq + 1, rdb), s.man.baseSeq + 1, Base)], [],
                              [Info(IncrFile(s.man.incrSeq + 1), s.man.incrSeq + 1, Incr)],
                              s.man.baseSeq + 1, s.man.incrSeq + 1)
    ensures t.diskMan == t.man && t.fd == Named(IncrFile(s.man.incrSeq + 1))
    ensures HasFile(t, BaseFile(s.man.baseSeq + 1, rdb), Snapshot(s.mem))
    ensures HasFile(t, IncrFile(s.man.incrSeq + 1), Log([]))
    ensures forall f :: f in Files(s.man.base) + Files(s.man.incr) + Files(s.man.history) ==> f !in t.disk
    ensures TempRewrite(pid) !in t.disk
  {
    hide Inv, Reaches, Append, Valid, NewIncr, NewBase, MarkRewritten, Files, HasFile;
    LogThere(s, start);
    var a := RewriteForks(s, n, pid, start);
    RewrittenManifest(s.man, rdb);
    var b := RewriteCommits(s, a, rdb, start);
    t := RewriteFinishes(s, b, start);
    RewrittenFiles(Append(s.disk, s.fd, s.buf), IncrFile(s.man.incrSeq + 1), BaseFile(s.man.baseSeq + 1, rdb),
                   TempRewrite(pid), Files(b.man.history), s.mem, a.disk, b.disk, t.disk);
    Has(t, BaseFile(s.man.baseSeq + 1, rdb), Snapshot(s.mem));
    Has(t, IncrFile(s.man.incrSeq + 1), Log([]));
  }

  lemma Has(s: State, f: File, c: Content)
    requires f in s.disk && s.disk[f] == c
    ensures HasFile(s, f, c)
  {}

  lemma LogThere(s: State, start: nat)
    requires Inv(s, start) && s.aof == On
    ensures Valid(s.man) && |s.man.incr| > 0
  {}

  // ------------------------------------------------------------------------------
  // Turning the log on
  // ------------------------------------------------------------------------------

  /** The first rewrite of a log that is being turned on has been forked; an earlier child is gone. */
  lemma StartForks(s: State, pid: nat, start: nat) returns (t: State)
    requires Inv(s, start) && Resting(s) && s.phase == Idle && s.aof == Off
    ensures Reaches(s, t, start, true) && t.aof == WaitRewrite && t.phase == Idle && t.fd == Named(TempIncr)
    ensures t.child == Child(pid, s.mem, Running) && HasFile(t, TempIncr, Log([])) && t.buf == []
    ensures t.mem == s.mem && t.man == s.man && t.diskMan == s.diskMan && t.selected == -1
    ensures s.child.Child? ==> TempRewrite(s.child.pid) !in t.disk
  {
    assert s.buf == [] && (s.fd.Named? ==> s.fd.file == TempIncr) && s.fd != Nameless;
    hide RunItems, LoadIncr, Reaches, Inv, Append, Recover, DoStart, Resting;
    ReachesSelf(s, start, true);
    ReachesMore(s, s, StartAof(false), start, true);
    var a := DoStart(s, false);
    StartBegins(s);
    ReachesMore(s, a, OpenNew(true), start, true);
    var b := Open(a, true);
    ReachesMore(s, b, Fork(true, pid), start, true);
    t := DoFork(b, true, pid);
  }

  lemma StartBegins(s: State)
    requires s.buf == [] && s.aof == Off && (s.fd.Named? ==> s.fd.file == TempIncr) && s.fd != Nameless
    ensures var t := DoStart(s, false);
            t == s.(aof := WaitRewrite, phase := Opening(true), child := NoChild, selected := -1,
                    disk := if s.child.Child? then s.disk - {TempRewrite(s.child.pid)} else s.disk)
  {
    assert s.buf[..0] == [];
    AppendNothing(DropChild(s).disk, s.fd);
  }

  lemma AppendNothing(d: map<File, Content>, fd: Fd)
    ensures Append(d, fd, []) == d
  {
    if fd.Named? && fd.file in d && d[fd.file].Log? {
      assert d[fd.file].items + [] == d[fd.file].items;
    }
  }

  /** The child has ended well, and its file and the temporary incr file have got their names. */
  lemma StartRenames(o: State, s: State, rdb: bool, start: nat) returns (t: State)
    requires Reaches(o, s, start, true) && s.aof == WaitRewrite && s.phase == Idle && s.fd == Named(TempIncr)
    requires s.child.Child? && s.child.ended == Running && HasFile(s, TempIncr, Log([]))
    ensures Reaches(o, t, start, true) && t.aof == WaitRewrite
    ensures t.phase == PersistingDone(NewIncr(NewBase(s.man, rdb)))
    ensures t.fd == Named(IncrFile(s.man.incrSeq + 1)) && TempIncr !in t.disk
    ensures HasFile(t, IncrFile(s.man.incrSeq + 1), Log([]))
    ensures HasFile(t, BaseFile(s.man.baseSeq + 1, rdb), Snapshot(s.child.snapshot))
    ensures t.mem == s.mem && t.buf == s.buf && t.child.Child? && t.child.pid == s.child.pid && t.man == s.man
  {
    var c := StartBaseNamed(o, s, rdb, start);
    hide RunItems, LoadIncr, Reaches, Recover, NewBase;
    ReachesMore(o, c, RenameIncr(true), start, true);
    t := DoRenameIncr(c, true);
  }

  lemma StartBaseNamed(o: State, s: State, rdb: bool, start: nat) returns (t: State)
    requires Reaches(o, s, start, true) && s.aof == WaitRewrite && s.phase == Idle && s.fd == Named(TempIncr)
    requires s.child.Child? && s.child.ended == Running && HasFile(s, TempIncr, Log([]))
    ensures Reaches(o, t, start, true) && t.aof == WaitRewrite && t.phase == RenamingIncr(NewBase(s.man, rdb))
    ensures NewBase(s.man, rdb).incrSeq == s.man.incrSeq
    ensures t.fd == Named(TempIncr) && HasFile(t, TempIncr, Log([]))
    ensures HasFile(t, BaseFile(s.man.baseSeq + 1, rdb), Snapshot(s.child.snapshot))
    ensures t.mem == s.mem && t.buf == s.buf && t.child.Child? && t.child.pid == s.child.pid && t.man == s.man
  {
    hide RunItems, LoadIncr, Reaches, Recover;
    ReachesMore(o, s, ChildEnds(true), start, true);
    var a := EndChild(s, true);
    ReachesMore(o, a, Handle(rdb), start, true);
    var b := a.(phase := RenamingBase(rdb));
    ReachesMore(o, b, RenameBase(true), start, true);
    t := DoRenameBase(b, true);
  }

  /** A start in which everything works: the log is on, with one base that has the data set and one
      empty incr file that is open. */
  lemma StartCompletes(s: State, pid: nat, rdb: bool, start: nat) returns (t: State)
    requires Inv(s, start) && Resting(s) && s.phase == Idle && s.aof == Off
    ensures Reaches(s, t, start, true)
    ensures t.aof == On && t.phase == Idle && t.child == NoChild && t.mem == s.mem && t.buf == []
    ensures t.man.base == [Info(BaseFile(s.man.baseSeq + 1, rdb), s.man.baseSeq + 1, Base)]
    ensures |t.man.incr| == 1 && t.man.incr[0].file == IncrFile(s.man.incrSeq + 1)
    ensures t.diskMan == t.man && t.fd == Named(IncrFile(s.man.incrSeq + 1))
    ensures HasFile(t, BaseFile(s.man.baseSeq + 1, rdb), Snapshot(s.mem))
    ensures HasFile(t, IncrFile(s.man.incrSeq + 1), Log([]))
    ensures TempIncr !in t.disk && TempRewrite(pid) !in t.disk
  {
    hide Inv, Resting, Valid, Reaches, DoneManifest, NewIncr, NewBase;
    ManifestThere(s, start);
    var a := StartForks(s, pid, start);
    var b := StartRenames(s, a, rdb, start);
    DoneValid(s.man, rdb, true, true);
    t := StartFinishes(s, b, rdb, start);
  }

  lemma ManifestThere(s: State, start: nat)
    requires Inv(s, start)
    ensures Valid(s.man)
  {}

  lemma StartFinishes(o: State, s: State, rdb: bool, start: nat) returns (t: State)
    requires Reaches(o, s, start, true) && s.aof == WaitRewrite && s.child.Child? && s.fd.Named? && s.fd.file.IncrFile?
    requires s.phase == PersistingDone(NewIncr(NewBase(s.man, rdb)))
    ensures Reaches(o, t, start, true)
    ensures var m := DoneManifest(s.man, rdb, true, true);
            t == s.(aof := On, phase := Idle, child := NoChild, man := m, diskMan := m,
                    disk := s.disk - {TempRewrite(s.child.pid)})
  {
    hide RunItems, LoadIncr, Reaches, Recover, MarkRewritten, NewIncr, NewBase;
    ReachesMore(o, s, PersistDone(Written), start, true);
    var a := WriteDone(s, Written);
    ReachesMore(o, a, DeleteHistory(false), start, true);
    var b := DoDelete(a, false);
    ReachesMore(o, b, Clean, start, true);
    t := DoClean(b);
  }

  // ------------------------------------------------------------------------------
  // Failures
  // ------------------------------------------------------------------------------

  /** A rewrite that cannot be started leaves the log as it was, with its buffer in the file, and a
      log that was being turned on is off again. */
  lemma StartFails(s: State, starting: bool)
    requires s.phase == Opening(starting) && s.aof != Off
    ensures Open(s, false) == s.(phase := Idle, aof := if starting then Off else s.aof)
  {}

  lemma ForkFails(s: State, pid: nat)
    requires s.phase.Forking?
    ensures DoFork(s, false, pid) == s.(phase := Idle, aof := if s.phase.starting then Off else s.aof)
  {}

  /** A child that fails: a running log goes on in the file it has, with its buffer; a log that
      waits drops its buffer and its temporary file and waits on.  The manifest is untouched. */
  lemma ChildFails(o: State, s: State, rdb: bool, start: nat) returns (t: State)
    requires Reaches(o, s, start, true) && s.phase == Idle && s.child.Child? && s.child.ended == Running
    requires s.fd.Named? ==> s.fd.file.TempIncr? || s.fd.file.IncrFile?
    ensures Reaches(o, t, start, true)
    ensures t.phase == Idle && t.child == NoChild && t.aof == s.aof && t.mem == s.mem
    ensures t.man == s.man && t.diskMan == s.diskMan
    ensures s.aof != WaitRewrite ==>
              t.buf == s.buf && t.fd == s.fd && t.disk == s.disk - {TempRewrite(s.child.pid)}
    ensures s.aof == WaitRewrite ==> t.buf == [] && t.disk == s.disk - {TempRewrite(s.child.pid), TempIncr}
  {
    hide RunItems, LoadIncr, Reaches, Recover;
    ReachesMore(o, s, ChildEnds(false), start, true);
    var a := EndChild(s, false);
    ReachesMore(o, a, Handle(rdb), start, true);
    var b := a.(phase := Cleaning);
    ReachesMore(o, b, Clean, start, true);
    t := DoClean(b);
    if s.aof == WaitRewrite {
      var u := t;
      ReachesMore(o, u, CleanIncr, start, true);
      t := Unlink(u, TempIncr).(phase := Idle);
      assert s.disk - {TempRewrite(s.child.pid)} - {TempIncr} == s.disk - {TempRewrite(s.child.pid), TempIncr};
    }
  }

  /** A manifest that cannot be written at the end of a rewrite: the files with the new names are
      removed, and the log, its buffer and both manifests are what they were. */
  lemma CommitFails(o: State, s: State, start: nat) returns (t: State)
    requires Reaches(o, s, start, true) && s.phase.PersistingDone? && s.child.Child? && s.aof == On
    requires |s.phase.next.base| > 0 && s.phase.next.base[0].file.BaseFile? && s.phase.next.incrSeq == s.man.incrSeq
    requires s.fd.Named? && s.fd.file.IncrFile?
    ensures Reaches(o, t, start, true)
    ensures t == s.(phase := Idle, child := NoChild,
                    disk := s.disk - {s.phase.next.base[0].file, TempRewrite(s.child.pid)})
  {
    hide RunItems, LoadIncr, Reaches, Recover, MarkRewritten;
    ReachesMore(o, s, PersistDone(NotWritten), start, true);
    var a := WriteDone(s, NotWritten);
    ReachesMore(o, a, UndoBase, start, true);
    var b := DoUndoBase(a);
    ReachesMore(o, b, Clean, start, true);
    t := DoClean(b);
    assert s.disk - {s.phase.next.base[0].file} - {TempRewrite(s.child.pid)} ==
           s.disk - {s.phase.next.base[0].file, TempRewrite(s.child.pid)};
  }

  /** The same for a log that is being turned on: it waits on, for the next rewrite. */
  lemma CommitFailsWaiting(o: State, s: State, start: nat) returns (t: State)
    requires Reaches(o, s, start, true) && s.phase.PersistingDone? && s.child.Child? && s.aof == WaitRewrite
    requires |s.phase.next.base| > 0 && s.phase.next.incrSeq == s.man.incrSeq + 1
    ensures Reaches(o, t, start, true)
    ensures t.phase == Idle && t.child == NoChild && t.aof == WaitRewrite && t.buf == []
    ensures t.man == s.man && t.diskMan == s.diskMan && t.mem == s.mem
    ensures t.disk == s.disk - {s.phase.next.base[0].file, IncrFile(s.phase.next.incrSeq),
                                TempRewrite(s.child.pid), TempIncr}
  {
    hide RunItems, LoadIncr, Reaches, Recover, MarkRewritten;
    ReachesMore(o, s, PersistDone(NotWritten), start, true);
    var a := WriteDone(s, NotWritten);
    ReachesMore(o, a, UndoBase, start, true);
    var b := DoUndoBase(a);
    ReachesMore(o, b, UndoIncr, start, true);
    var c := Unlink(b, IncrFile(s.phase.next.incrSeq)).(phase := Cleaning);
    ReachesMore(o, c, Clean, start, true);
    var d := DoClean(c);
    ReachesMore(o, d, CleanIncr, start, true);
    t := Unlink(d, TempIncr).(phase := Idle);
    var x, y, z := s.phase.next.base[0].file, IncrFile(s.phase.next.incrSeq), TempRewrite(s.child.pid);
    assert s.disk - {x} - {y} - {z} - {TempIncr} == s.disk - {x, y, z, TempIncr};
  }
}
