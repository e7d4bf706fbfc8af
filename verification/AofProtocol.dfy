/** Append-only persistence as a state machine: feeding the log, background rewrites,
    turning the log on and off, crashes and restarts.

    Every step ends at a system call that changes the disk, so a crash may come between
    any two steps.  The data set is represented by its history, the list of executed
    commands with the database each ran against: whatever the commands mean, equal
    histories are equal data sets.  A file `Snapshot(h)` is any file that rebuilds the data
    set reached by history `h`. */
module AofProtocol {
  import opened ByteStrings
  import AofCodec
  import opened AofManifest

  type Command = AofCodec.Command

  /** An executed command; `db` is -1 for one that does not depend on the database. */
  datatype Done = Done(db: int, cmd: Command)

  type History = seq<Done>

  /** A command of the log: SELECT, or any other, `plain` if it does not depend on the database. */
  datatype Item = Select(db: nat) | Run(cmd: Command, plain: bool)

  datatype Content = Snapshot(h: History) | Log(items: seq<Item>)

  datatype AofState = Off | On | WaitRewrite

  /** The open file behind `aof_fd`: none, a named file, or one whose name is gone. */
  datatype Fd = NoFd | Named(file: File) | Nameless

  /** A rewrite child: its pid, the data set at the fork, and how it ended if it has. */
  datatype Child = NoChild | Child(pid: nat, snapshot: History, ended: Ended)

  datatype Ended = Running | Succeeded | Failed

  /** Where the server is inside a multi-step operation. */
  datatype Phase =
    | Idle
    | Opening(starting: bool)                            // openNewIncrAofForAppend
    | PersistingNew(next: Manifest, starting: bool)      // its manifest write
    | Forking(starting: bool)
    | RenamingBase(rdb: bool)                            // backgroundRewriteDoneHandler
    | RenamingIncr(next: Manifest)
    | PersistingDone(next: Manifest)
    | UndoingBase(next: Manifest)                        // a failed handler removes its files
    | UndoingIncr(next: Manifest)
    | DeletingHistory(finishing: bool, some: bool)       // aofDelHistoryFiles; `some` have been unlinked
    | PersistingHistory(finishing: bool)
    | Cleaning                                           // the cleanup label
    | CleaningIncr

  datatype State = State(
    aof: AofState, man: Manifest, fd: Fd, buf: seq<Item>, selected: int,
    child: Child, phase: Phase, mem: History,
    disk: map<File, Content>, diskMan: Manifest)

  /** How a manifest write can end: done, failed with the old manifest in place, or failed in
      the directory fsync after the rename, with the new manifest in place. */
  datatype Persist = Written | NotWritten | WrittenButFailed

  datatype Event =
    | Feed(dictid: int, cmd: Command)
    | Flush(n: nat)                          // the first n items of the buffer reach the file
    | BeginRewrite(n: nat)                   // rewriteAppendOnlyFileBackground; its flush moves n items
    | OpenNew(ok: bool)
    | PersistNew(r: Persist)
    | Fork(ok: bool, pid: nat)
    | ChildEnds(ok: bool)
    | Handle(rdb: bool)                      // backgroundRewriteDoneHandler is entered
    | RenameBase(ok: bool)
    | RenameIncr(ok: bool)
    | PersistDone(r: Persist)
    | UndoBase
    | UndoIncr
    | DeleteHistory(gc: bool)                // one unlink, or the end of the list
    | PersistHistory(r: Persist)
    | Clean
    | CleanIncr
    | CollectGarbage                         // aofDelHistoryFiles from elsewhere
    | StartAof(later: bool)                  // startAppendOnly; `later`: only scheduled
    | StopAof(n: nat)                        // stopAppendOnly; its flush moves n items
    | Restart                                // crash, then a start with the log on

  // ------------------------------------------------------------------------------
  // Replay
  // ------------------------------------------------------------------------------

  /** What a list of items does to a history, starting in database `cur`. */
  function RunItems(h: History, cur: nat, items: seq<Item>): (History, nat) {
    if |items| == 0 then (h, cur)
    else
      var (g, db) := RunItems(h, cur, items[..|items| - 1]);
      match items[|items| - 1]
      case Select(d) => (g, d)
      case Run(c, plain) => (g + [Done(if plain then -1 else db, c)], db)
  }

  datatype Recovered = Missing | Data(h: History, cur: nat)

  /** Loading the incr files in order; every file is entered in database `start`. */
  function LoadIncr(disk: map<File, Content>, incr: seq<Info>, h: History, start: nat): Recovered {
    if |incr| == 0 then Data(h, start)
    else
      var before := LoadIncr(disk, incr[..|incr| - 1], h, start);
      var f := incr[|incr| - 1].file;
      if before.Missing? || f !in disk || !disk[f].Log? then Missing
      else
        var (g, cur) := RunItems(before.h, start, disk[f].items);
        Data(g, cur)
  }

  function LoadBase(disk: map<File, Content>, m: Manifest): Recovered {
    if |m.base| == 0 then Data([], 0)
    else
      var f := m.base[0].file;
      if f in disk && disk[f].Snapshot? then Data(disk[f].h, 0) else Missing
  }

  /** What a server that starts now gets from the disk (`loadAppendOnlyFiles`). */
  function Recover(disk: map<File, Content>, m: Manifest, start: nat): Recovered {
    var b := LoadBase(disk, m);
    if b.Missing? then Missing else LoadIncr(disk, m.incr, b.h, start)
  }

  // ------------------------------------------------------------------------------
  // The steps
  // ------------------------------------------------------------------------------

  /** `write` to the open file. */
  function Append(disk: map<File, Content>, fd: Fd, items: seq<Item>): map<File, Content> {
    if fd.Named? && fd.file in disk && disk[fd.file].Log?
    then disk[fd.file := Log(disk[fd.file].items + items)] else disk
  }

  function Unlink(s: State, f: File): State {
    s.(disk := s.disk - {f}, fd := if s.fd == Named(f) then Nameless else s.fd)
  }

  /** `rename(f, g)`; an open file follows its name. */
  function Rename(s: State, f: File, g: File): State
    requires f in s.disk
  {
    s.(disk := (s.disk - {f})[g := s.disk[f]],
       fd := if s.fd == Named(f) then Named(g) else if s.fd == Named(g) then Nameless else s.fd)
  }

  /** `feedAppendOnlyFile`, as called from `propagateNow`: the command has been executed. */
  function FeedLog(s: State, dictid: int, cmd: Command): State
    requires dictid >= -1
  {
    var t := s.(mem := s.mem + [Done(dictid, cmd)]);
    if s.aof == Off then t
    else
      var select: seq<Item> := if dictid != -1 && dictid != s.selected then [Select(dictid)] else [];
      var u := if dictid != -1 then t.(selected := dictid) else t;
      if s.aof == On || (s.aof == WaitRewrite && s.child != NoChild)
      then u.(buf := s.buf + (select + [Run(cmd, dictid == -1)])) else u
  }

  /** A flush that gets `n` items of the buffer into the file. */
  function FlushItems(s: State, n: nat): State {
    var k := Min(n, |s.buf|);
    if s.fd == NoFd then s
    else s.(disk := Append(s.disk, s.fd, s.buf[..k]), buf := s.buf[k..])
  }

  /** A failure while a rewrite is being started: `startAppendOnly` turns the log off again. */
  function GiveUp(s: State, starting: bool): State {
    s.(phase := Idle, aof := if starting then Off else s.aof)
  }

  /** `aofRemoveTempFile` and `resetChildState`. */
  function DropChild(s: State): State {
    if s.child == NoChild then s else Unlink(s, TempRewrite(s.child.pid)).(child := NoChild)
  }

  /** `rewriteAppendOnlyFileBackground` up to its forced flush, which moves `n` items. */
  function Begin(s: State, n: nat, starting: bool): State {
    FlushItems(s.(selected := -1), n).(phase := Opening(starting))
  }

  /** The file just opened becomes the current one. */
  function SwitchTo(s: State, f: File, m: Manifest, starting: bool): State {
    s.(fd := Named(f), man := m, phase := Forking(starting))
  }

  /** `openNewIncrAofForAppend`: opening. */
  function Open(s: State, ok: bool): State
    requires s.phase.Opening?
  {
    var starting := s.phase.starting;
    if s.aof == Off then s.(phase := Forking(starting))
    else if !ok then GiveUp(s, starting)
    else if s.aof == WaitRewrite then
      SwitchTo(s.(disk := s.disk[TempIncr := Log([])]), TempIncr, s.man, starting)
    else
      var next := NewIncr(s.man);
      s.(disk := s.disk[IncrFile(next.incrSeq) := Log([])], phase := PersistingNew(next, starting))
  }

  /** `openNewIncrAofForAppend`: persisting the manifest that names the new file. */
  function WriteNew(s: State, r: Persist): State
    requires s.phase.PersistingNew?
  {
    var next, starting := s.phase.next, s.phase.starting;
    if r == Written then SwitchTo(s.(diskMan := next), IncrFile(next.incrSeq), next, starting)
    else GiveUp(if r == NotWritten then s else s.(diskMan := next), starting)
  }

  function DoFork(s: State, ok: bool, pid: nat): State
    requires s.phase.Forking?
  {
    if !ok then GiveUp(s, s.phase.starting) else s.(child := Child(pid, s.mem, Running), phase := Idle)
  }

  function EndChild(s: State, ok: bool): State
    requires s.child != NoChild
  {
    if ok then s.(disk := s.disk[TempRewrite(s.child.pid) := Snapshot(s.child.snapshot)],
                  child := s.child.(ended := Succeeded))
    else s.(child := s.child.(ended := Failed))
  }

  /** `backgroundRewriteDoneHandler`: the child's file gets the name of the new base. */
  function DoRenameBase(s: State, ok: bool): State
    requires s.phase.RenamingBase? && s.child != NoChild
  {
    if !ok || TempRewrite(s.child.pid) !in s.disk then s.(phase := Cleaning)
    else
      var next := NewBase(s.man, s.phase.rdb);
      Rename(s, TempRewrite(s.child.pid), BaseFile(next.baseSeq, s.phase.rdb)).(
        phase := if s.aof == WaitRewrite then RenamingIncr(next) else PersistingDone(next))
  }

  /** ... a log that waits for the rewrite gets its accumulated file the next incr name ... */
  function DoRenameIncr(s: State, ok: bool): State
    requires s.phase.RenamingIncr?
  {
    if !ok || TempIncr !in s.disk then s.(phase := UndoingBase(s.phase.next))
    else
      var next := NewIncr(s.phase.next);
      Rename(s, TempIncr, IncrFile(next.incrSeq)).(phase := PersistingDone(next))
  }

  /** ... and the new manifest is persisted. */
  function WriteDone(s: State, r: Persist): State
    requires s.phase.PersistingDone?
  {
    var next := MarkRewritten(s.phase.next, s.fd != NoFd);
    if r == Written then s.(diskMan := next, man := next, phase := DeletingHistory(true, false))
    else (if r == NotWritten then s else s.(diskMan := next)).(phase := UndoingBase(s.phase.next))
  }

  /** A failed handler unlinks the new base, and the new incr file if there was one. */
  function DoUndoBase(s: State): State
    requires s.phase.UndoingBase?
  {
    var next := s.phase.next;
    var t := if |next.base| > 0 then Unlink(s, next.base[0].file) else s;
    t.(phase := if next.incrSeq > s.man.incrSeq then UndoingIncr(next) else Cleaning)
  }

  /** The end of a handled rewrite: a log that waited for it is on. */
  function Finish(s: State, finishing: bool): State {
    if finishing then s.(aof := if s.aof == WaitRewrite then On else s.aof, phase := Cleaning) else s.(phase := Idle)
  }

  /** `aofDelHistoryFiles`: one unlink, or the end of the list. */
  function DoDelete(s: State, gc: bool): State
    requires s.phase.DeletingHistory?
  {
    var finishing, some := s.phase.finishing, s.phase.some;
    if !some && (!gc || |s.man.history| == 0) then Finish(s, finishing)
    else if |s.man.history| == 0 then s.(phase := PersistingHistory(finishing))
    else
      Unlink(s, s.man.history[0].file).(man := s.man.(history := s.man.history[1..]),
                                        phase := DeletingHistory(finishing, true))
  }

  /** The `cleanup` label. */
  function DoClean(s: State): State {
    var t := DropChild(s);
    if s.aof == WaitRewrite then t.(buf := [], phase := CleaningIncr) else t.(phase := Idle)
  }

  /** `startAppendOnly`; `later` if another child runs or a transaction is being executed. */
  function DoStart(s: State, later: bool): State {
    if later then s.(aof := WaitRewrite) else Begin(DropChild(s.(aof := WaitRewrite)), 0, true)
  }

  /** `stopAppendOnly`. */
  function DoStop(s: State, n: nat): State {
    DropChild(FlushItems(s, n).(fd := NoFd, selected := -1, aof := Off, buf := []))
  }

  /** The manifest a starting server reads: the counters are those of the last files. */
  function Reloaded(m: Manifest): Manifest {
    m.(baseSeq := if |m.base| > 0 then m.base[0].num else 0,
       incrSeq := if |m.incr| > 0 then m.incr[|m.incr| - 1].num else 0)
  }

  /** Crash and start: the data set is what the disk gives, the last incr file is opened again. */
  function DoRestart(s: State, start: nat): State {
    var r := Recover(s.disk, s.diskMan, start);
    if r.Missing? || |s.diskMan.incr| == 0 then s
    else
      s.(man := Reloaded(s.diskMan), fd := Named(s.diskMan.incr[|s.diskMan.incr| - 1].file), buf := [],
         selected := -1, child := NoChild, mem := r.h, phase := DeletingHistory(false, false))
  }

  /** Whether an event can happen in a state. */
  predicate Possible(s: State, e: Event) {
    match e
    case Feed(dictid, _) => s.phase == Idle && dictid >= -1
    case Flush(_) => s.phase == Idle && s.aof != Off
    case BeginRewrite(_) => s.phase == Idle && s.child == NoChild
    case OpenNew(_) => s.phase.Opening?
    case PersistNew(_) => s.phase.PersistingNew?
    case Fork(_, _) => s.phase.Forking?
    case ChildEnds(_) => s.child != NoChild && s.child.ended == Running
    case Handle(_) => s.phase == Idle && s.child != NoChild && s.child.ended != Running
    case RenameBase(_) => s.phase.RenamingBase? && s.child != NoChild
    case RenameIncr(_) => s.phase.RenamingIncr?
    case PersistDone(_) => s.phase.PersistingDone?
    case UndoBase => s.phase.UndoingBase?
    case UndoIncr => s.phase.UndoingIncr?
    case DeleteHistory(_) => s.phase.DeletingHistory?
    case PersistHistory(_) => s.phase.PersistingHistory?
    case Clean => s.phase == Cleaning
    case CleanIncr => s.phase == CleaningIncr
    case CollectGarbage => s.phase == Idle
    case StartAof(_) => s.phase == Idle && s.aof == Off
    case StopAof(_) => s.phase == Idle && s.aof != Off
    case Restart => s.aof == On
  }

  /** One step; `start` is the database in which a loader enters every file. */
  function Apply(s: State, e: Event, start: nat): State
    requires Possible(s, e)
  {
    match e
    case Feed(dictid, cmd) => FeedLog(s, dictid, cmd)
    case Flush(n) => FlushItems(s, n)
    case BeginRewrite(n) => Begin(s, n, false)
    case OpenNew(ok) => Open(s, ok)
    case PersistNew(r) => WriteNew(s, r)
    case Fork(ok, pid) => DoFork(s, ok, pid)
    case ChildEnds(ok) => EndChild(s, ok)
    case Handle(rdb) => s.(phase := if s.child.ended == Succeeded then RenamingBase(rdb) else Cleaning)
    case RenameBase(ok) => DoRenameBase(s, ok)
    case RenameIncr(ok) => DoRenameIncr(s, ok)
    case PersistDone(r) => WriteDone(s, r)
    case UndoBase => DoUndoBase(s)
    case UndoIncr => Unlink(s, IncrFile(s.phase.next.incrSeq)).(phase := Cleaning)
    case DeleteHistory(gc) => DoDelete(s, gc)
    case PersistHistory(r) => Finish(if r == NotWritten then s else s.(diskMan := s.man), s.phase.finishing)
    case Clean => DoClean(s)
    case CleanIncr => Unlink(s, TempIncr).(phase := Idle)
    case CollectGarbage => s.(phase := DeletingHistory(false, false))
    case StartAof(later) => DoStart(s, later)
    case StopAof(n) => DoStop(s, n)
    case Restart => DoRestart(s, start)
  }

  /** Turning the log on while another child runs does no harm if there is no rewrite child, if
      that child has failed, if there is no temporary incr file its work could be put together
      with, or if that file is the open one and nothing was executed since the fork. */
  predicate Harmless(s: State) {
    || s.child == NoChild || s.child.ended == Failed || TempIncr !in s.disk
    || (s.fd == Named(TempIncr) && s.child.snapshot == s.mem)
  }

  /** The conditions under which the guarantee holds.  The flush at the start of a rewrite of a
      running log moves the whole buffer; a manifest write that reports failure left the old
      manifest in place; a start of the log that only schedules a rewrite is harmless. */
  predicate Allowed(s: State, e: Event) {
    && Possible(s, e)
    && (e.BeginRewrite? && s.aof == On ==> e.n >= |s.buf|)
    && (e.PersistNew? || e.PersistDone? ==> e.r != WrittenButFailed)
    && (e.StartAof? && e.later ==> Harmless(s))
  }

  // ------------------------------------------------------------------------------
  // The invariant
  // ------------------------------------------------------------------------------

  predicate SameFiles(a: Manifest, b: Manifest) {
    a.base == b.base && a.incr == b.incr && a.baseSeq == b.baseSeq && a.incrSeq == b.incrSeq
  }

  /** The files a manifest names as base or incr are on disk. */
  predicate Present(disk: map<File, Content>, m: Manifest) {
    && (forall i :: 0 <= i < |m.base| ==> m.base[i].file in disk && disk[m.base[i].file].Snapshot?)
    && (forall i :: 0 <= i < |m.incr| ==> m.incr[i].file in disk && disk[m.incr[i].file].Log?)
  }

  /** On top of history `h`, the open file and the buffer lead to the data set in memory, and
      `aof_selected_db` is the database in which they end. */
  predicate Leads(s: State, h: History, start: nat) {
    && s.fd.Named? && s.fd.file in s.disk && s.disk[s.fd.file].Log?
    && var (g, cur) := RunItems(h, start, s.disk[s.fd.file].items + s.buf);
       g == s.mem && (s.selected == -1 || s.selected == cur)
  }

  /** The history in the files before the last incr file. */
  function Before(disk: map<File, Content>, m: Manifest, start: nat): Recovered
    requires |m.incr| > 0
  {
    Recover(disk, m.(incr := m.incr[..|m.incr| - 1]), start)
  }

  /** The log on disk, the open file being its last part, leads to the data set in memory. */
  predicate LogGood(s: State, start: nat) {
    && |s.man.incr| > 0 && s.fd == Named(s.man.incr[|s.man.incr| - 1].file)
    && Before(s.disk, s.man, start).Data?
    && Leads(s, Before(s.disk, s.man, start).h, start)
  }

  /** No operation is under way, or only the deletion of history files. */
  predicate Quiet(p: Phase) {
    p == Idle || (p.DeletingHistory? && !p.finishing) || (p.PersistingHistory? && !p.finishing)
  }

  /** The phases in which the work of a child can still be used. */
  predicate Uncommitted(p: Phase) {
    Quiet(p) || p.RenamingBase? || p.RenamingIncr? || p.PersistingDone?
  }

  predicate HasFile(s: State, f: File, c: Content) {
    f in s.disk && s.disk[f] == c
  }

  /** What holds in the middle of an operation. */
  predicate PhaseGood(s: State) {
    match s.phase
    case Idle => true
    case Opening(starting) =>
      s.child == NoChild && s.selected == -1 && s.buf == [] && (starting ==> s.aof == WaitRewrite)
    case PersistingNew(next, starting) =>
      && s.child == NoChild && s.selected == -1 && s.buf == [] && s.aof == On && !starting
      && next == NewIncr(s.man) && HasFile(s, IncrFile(next.incrSeq), Log([]))
    case Forking(starting) =>
      && s.child == NoChild && s.selected == -1 && s.buf == [] && (starting ==> s.aof == WaitRewrite)
      && (s.aof != Off ==> s.fd.Named? && HasFile(s, s.fd.file, Log([])))
      && (s.aof == WaitRewrite ==> s.fd == Named(TempIncr))
    case RenamingBase(rdb) => s.child.Child? && s.child.ended == Succeeded
    case RenamingIncr(next) =>
      && s.child.Child? && s.child.ended == Succeeded && s.aof == WaitRewrite
      && exists rdb :: next == NewBase(s.man, rdb) &&
                       HasFile(s, BaseFile(next.baseSeq, rdb), Snapshot(s.child.snapshot))
    case PersistingDone(next) =>
      && s.child.Child? && s.child.ended == Succeeded
      && exists rdb :: next == (if s.aof == WaitRewrite then NewIncr(NewBase(s.man, rdb)) else NewBase(s.man, rdb)) &&
                       HasFile(s, BaseFile(next.baseSeq, rdb), Snapshot(s.child.snapshot))
    case UndoingBase(next) =>
      && s.child.Child?
      && exists rdb :: next == NewBase(s.man, rdb) || (s.aof == WaitRewrite && next == NewIncr(NewBase(s.man, rdb)))
    case UndoingIncr(next) =>
      s.child.Child? && s.aof == WaitRewrite && next.incrSeq == s.man.incrSeq + 1
    case DeletingHistory(finishing, _) => finishing ==> s.child.Child?
    case PersistingHistory(finishing) => finishing ==> s.child.Child?
    case Cleaning => s.child.Child?
    case CleaningIncr => s.child == NoChild && s.aof == WaitRewrite
  }

  /** The file a waiting log accumulates in. */
  predicate WaitFile(s: State) {
    s.fd == Named(if s.phase.PersistingDone? then IncrFile(s.phase.next.incrSeq) else TempIncr)
  }

  /** A child that was started while the log was off, and no file it could be mistaken to go with. */
  predicate Stray(s: State) {
    TempIncr !in s.disk && !s.phase.PersistingDone?
  }

  predicate Committed(p: Phase) {
    (p.DeletingHistory? && p.finishing) || (p.PersistingHistory? && p.finishing)
  }

  /** While the log is off, or is just being turned on, no file is open, or a temporary incr file
      that is still empty. */
  predicate Resting(s: State) {
    s.aof == Off || s.phase == Opening(true) ==>
      s.selected == -1 && (s.fd == NoFd || (s.fd == Named(TempIncr) && HasFile(s, TempIncr, Log([]))))
  }

  predicate Inv(s: State, start: nat) {
    && Valid(s.man) && Valid(s.diskMan) && SameFiles(s.man, s.diskMan) && Present(s.disk, s.man)
    && PhaseGood(s) && (s.fd.Named? ==> s.fd.file.TempIncr? || s.fd.file.IncrFile?)
    // a log that is on
    && (s.aof == On ==> LogGood(s, start))
    && (s.aof == WaitRewrite && Committed(s.phase) ==> LogGood(s, start))
    // a child that can still be used
    && (s.child.Child? && s.aof == On && Uncommitted(s.phase) ==> Leads(s, s.child.snapshot, start))
    && (s.child.Child? && s.child.ended != Failed && s.aof == WaitRewrite && Uncommitted(s.phase) ==>
          (WaitFile(s) && Leads(s, s.child.snapshot, start)) || Stray(s))
    && (s.child.Child? && s.child.ended == Succeeded && (Quiet(s.phase) || s.phase.RenamingBase?) ==>
          HasFile(s, TempRewrite(s.child.pid), Snapshot(s.child.snapshot)))
    // nothing is buffered that is not logged
    && (s.aof == Off || (s.aof == WaitRewrite && s.child == NoChild) ==> s.buf == [])
  }

  // ------------------------------------------------------------------------------
  // Frames
  // ------------------------------------------------------------------------------

  lemma {:induction false} RunItemsAppend(h: History, cur: nat, a: seq<Item>, b: seq<Item>)
    ensures RunItems(h, cur, a + b) == var (g, db) := RunItems(h, cur, a); RunItems(g, db, b)
    decreases |b|
  {
    if |b| == 0 {
      assert a + b == a;
    } else {
      assert (a + b)[..|a + b| - 1] == a + b[..|b| - 1];
      RunItemsAppend(h, cur, a, b[..|b| - 1]);
    }
  }

  lemma {:induction false} LoadIncrFrame(d: map<File, Content>, e: map<File, Content>, incr: seq<Info>, h: History,
                                         start: nat)
    requires forall i :: 0 <= i < |incr| ==>
                           incr[i].file in d && incr[i].file in e && d[incr[i].file] == e[incr[i].file]
    ensures LoadIncr(d, incr, h, start) == LoadIncr(e, incr, h, start)
  {
    if |incr| > 0 {
      LoadIncrFrame(d, e, incr[..|incr| - 1], h, start);
    }
  }

  lemma {:induction false} LoadIncrPresent(d: map<File, Content>, incr: seq<Info>, h: History, start: nat)
    requires forall i :: 0 <= i < |incr| ==> incr[i].file in d && d[incr[i].file].Log?
    ensures LoadIncr(d, incr, h, start).Data?
  {
    if |incr| > 0 {
      LoadIncrPresent(d, incr[..|incr| - 1], h, start);
    }
  }

  /** A file named as base or incr. */
  predicate Live(m: Manifest, f: File) {
    (exists i :: 0 <= i < |m.base| && m.base[i].file == f) || (exists i :: 0 <= i < |m.incr| && m.incr[i].file == f)
  }

  /** Two disks agree on the live files, except possibly the one that is open. */
  ghost predicate Agree(d: map<File, Content>, e: map<File, Content>, m: Manifest, fd: Fd) {
    && Present(e, m)
    && forall f :: Live(m, f) && fd != Named(f) ==> f in d && f in e && d[f] == e[f]
  }

  /** The part of the log before the open file only depends on the other live files. */
  lemma BeforeFrame(d: map<File, Content>, e: map<File, Content>, m: Manifest, fd: Fd, start: nat)
    requires Valid(m) && |m.incr| > 0 && fd == Named(m.incr[|m.incr| - 1].file)
    requires Agree(d, e, m, fd)
    ensures Before(d, m, start) == Before(e, m, start)
  {
    var n := |m.incr| - 1;
    var part := m.incr[..n];
    forall i | 0 <= i < |part| ensures part[i].file in d && part[i].file in e && d[part[i].file] == e[part[i].file] {
      assert part[i] == m.incr[i];
      assert Live(m, m.incr[i].file);
    }
    if |m.base| > 0 {
      assert Live(m, m.base[0].file);
    }
    var b := LoadBase(d, m);
    assert LoadBase(d, m.(incr := part)) == LoadBase(e, m.(incr := part));
    if b.Data? {
      LoadIncrFrame(d, e, part, b.h, start);
    }
  }

  lemma BeforePresent(d: map<File, Content>, m: Manifest, start: nat)
    requires Present(d, m) && |m.incr| > 0
    ensures Before(d, m, start).Data?
  {
    if LoadBase(d, m).Data? {
      LoadIncrPresent(d, m.incr[..|m.incr| - 1], LoadBase(d, m).h, start);
    }
  }

  /** The log on disk is its part before the last file, continued with the last file. */
  lemma RecoverLast(d: map<File, Content>, m: Manifest, start: nat)
    requires Present(d, m) && |m.incr| > 0
    ensures var b := Before(d, m, start);
            b.Data? && Recover(d, m, start) ==
            var (g, cur) := RunItems(b.h, start, d[m.incr[|m.incr| - 1].file].items); Data(g, cur)
  {
    BeforePresent(d, m, start);
  }

  /** What `LogGood` means for a crash: the disk gives a history that the buffer completes. */
  lemma LogRecovers(s: State, start: nat)
    requires Valid(s.man) && SameFiles(s.man, s.diskMan) && Present(s.disk, s.man) && LogGood(s, start)
    ensures var r := Recover(s.disk, s.diskMan, start);
            r.Data? && RunItems(r.h, r.cur, s.buf).0 == s.mem
  {
    var last := s.man.incr[|s.man.incr| - 1].file;
    RecoverLast(s.disk, s.man, start);
    assert Recover(s.disk, s.diskMan, start) == Recover(s.disk, s.man, start);
    RunItemsAppend(Before(s.disk, s.man, start).h, start, s.disk[last].items, s.buf);
  }

  lemma NotLive(m: Manifest, f: File)
    requires Valid(m)
    requires match f
             case TempIncr => true
             case TempRewrite(_) => true
             case BaseFile(n, _) => n > m.baseSeq
             case IncrFile(n) => n > m.incrSeq
    ensures !Live(m, f)
  {
    forall i | 0 <= i < |m.incr| ensures m.incr[i].file != f {
      assert m.incr[i] == Info(IncrFile(m.incr[i].num), m.incr[i].num, Incr);
      assert i < |m.incr| - 1 ==> m.incr[i].num < m.incr[|m.incr| - 1].num;
    }
  }

  lemma ObsoleteNotLive(m: Manifest, ai: Info)
    requires Valid(m) && Obsolete(m, ai)
    ensures !Live(m, ai.file)
  {
    forall i | 0 <= i < |m.incr| ensures m.incr[i].file != ai.file {
      assert m.incr[i] == Info(IncrFile(m.incr[i].num), m.incr[i].num, Incr);
    }
  }

  /** Creating, overwriting or removing a file that is not live leaves the log alone. */
  lemma OtherFile(d: map<File, Content>, e: map<File, Content>, m: Manifest, f: File)
    requires Present(d, m) && !Live(m, f)
    requires forall g :: g != f ==> (g in d <==> g in e) && (g in d ==> d[g] == e[g])
    ensures Present(e, m) && Agree(d, e, m, NoFd)
  {
    forall i | 0 <= i < |m.base| ensures m.base[i].file in e && e[m.base[i].file].Snapshot? {
      assert m.base[i].file != f;
    }
    forall i | 0 <= i < |m.incr| ensures m.incr[i].file in e && e[m.incr[i].file].Log? {
      assert m.incr[i].file != f;
    }
    LiveInDisk(d, m);
  }

  lemma LiveInDisk(d: map<File, Content>, m: Manifest)
    requires Present(d, m)
    ensures forall f :: Live(m, f) ==> f in d
  {}

  lemma LeadsKept(s: State, t: State, h: History, start: nat)
    requires Leads(s, h, start) && t.fd == s.fd && t.mem == s.mem && t.buf == s.buf
    requires s.fd.file in t.disk && t.disk[s.fd.file] == s.disk[s.fd.file]
    requires t.selected == s.selected || t.selected == -1
    ensures Leads(t, h, start)
  {}

  lemma LogKept(s: State, t: State, start: nat)
    requires Valid(s.man) && LogGood(s, start) && Agree(s.disk, t.disk, s.man, NoFd)
    requires t.man.base == s.man.base && t.man.incr == s.man.incr
    requires t.fd == s.fd && t.mem == s.mem && t.buf == s.buf && (t.selected == s.selected || t.selected == -1)
    ensures LogGood(t, start)
  {
    hide RunItems;
    BeforeFrame(s.disk, t.disk, s.man, s.fd, start);
    assert Before(t.disk, t.man, start) == Before(t.disk, s.man, start);
    assert Live(s.man, s.man.incr[|s.man.incr| - 1].file);
  }

  /** Only file `f` changed, it is not live and not open. */
  ghost predicate Elsewhere(s: State, t: State, f: File) {
    && !Live(s.man, f) && s.fd != Named(f) && t.fd == s.fd
    && forall g :: g != f ==> (g in s.disk <==> g in t.disk) && (g in s.disk ==> s.disk[g] == t.disk[g])
  }

  lemma ElsewhereKept(s: State, t: State, f: File, start: nat)
    requires Valid(s.man) && Present(s.disk, s.man) && Elsewhere(s, t, f)
    requires t.man.base == s.man.base && t.man.incr == s.man.incr
    requires t.mem == s.mem && t.buf == s.buf && (t.selected == s.selected || t.selected == -1)
    ensures Present(t.disk, t.man)
    ensures LogGood(s, start) ==> LogGood(t, start)
    ensures forall h :: Leads(s, h, start) ==> Leads(t, h, start)
  {
    OtherFile(s.disk, t.disk, s.man, f);
    if LogGood(s, start) {
      LogKept(s, t, start);
    }
    forall h | Leads(s, h, start) ensures Leads(t, h, start) {
      LeadsKept(s, t, h, start);
    }
  }

  // ------------------------------------------------------------------------------
  // Every step keeps the invariant
  // ------------------------------------------------------------------------------

  /** New items behind the open file and the buffer. */
  lemma LeadsMore(s: State, t: State, h: History, start: nat, more: seq<Item>)
    requires Leads(s, h, start) && t.fd == s.fd
    requires s.fd.file in t.disk && t.disk[s.fd.file].Log?
    requires t.disk[s.fd.file].items + t.buf == s.disk[s.fd.file].items + s.buf + more
    requires var cur := RunItems(h, start, s.disk[s.fd.file].items + s.buf).1;
             var (g, db) := RunItems(s.mem, cur, more);
             t.mem == g && (t.selected == -1 || t.selected == db)
    ensures Leads(t, h, start)
  {
    RunItemsAppend(h, start, s.disk[s.fd.file].items + s.buf, more);
  }

  lemma FedItems(h: History, cur: nat, dictid: int, cmd: Command, select: bool)
    requires dictid >= -1 && (select ==> dictid >= 0) && (!select && dictid >= 0 ==> cur == dictid)
    ensures var items := (if select then [Select(dictid)] else []) + [Run(cmd, dictid == -1)];
            RunItems(h, cur, items) == (h + [Done(dictid, cmd)], if dictid >= 0 then dictid else cur)
  {
    var run := Run(cmd, dictid == -1);
    var items := (if select then [Select(dictid)] else []) + [run];
    if select {
      assert items[..1] == [Select(dictid)];
      assert RunItems(h, cur, items[..1]) == (RunItems(h, cur, items[..1][..0]).0, dictid);
    } else {
      assert items[..0] == [];
    }
  }

  lemma FeedLeads(s: State, h: History, start: nat, dictid: int, cmd: Command)
    requires dictid >= -1 && Leads(s, h, start)
    requires s.aof == On || (s.aof == WaitRewrite && s.child != NoChild)
    ensures Leads(FeedLog(s, dictid, cmd), h, start)
  {
    hide RunItems;
    var t := FeedLog(s, dictid, cmd);
    var select := dictid != -1 && dictid != s.selected;
    var more := (if select then [Select(dictid)] else []) + [Run(cmd, dictid == -1)];
    var cur := RunItems(h, start, s.disk[s.fd.file].items + s.buf).1;
    FedItems(s.mem, cur, dictid, cmd, select);
    assert t.disk[s.fd.file].items + t.buf == s.disk[s.fd.file].items + s.buf + more;
    LeadsMore(s, t, h, start, more);
  }

  lemma FeedKeeps(s: State, start: nat, dictid: int, cmd: Command)
    requires Inv(s, start) && s.phase == Idle && dictid >= -1
    ensures Inv(FeedLog(s, dictid, cmd), start)
  {
    hide RunItems, Before, Valid, Present;
    if s.aof == On {
      FeedLeads(s, Before(s.disk, s.man, start).h, start, dictid, cmd);
    }
    if s.child.Child? && s.aof != Off && Leads(s, s.child.snapshot, start) {
      FeedLeads(s, s.child.snapshot, start, dictid, cmd);
    }
  }

  /** Appending to an open log file keeps every file of its type. */
  lemma AppendPresent(d: map<File, Content>, m: Manifest, fd: Fd, items: seq<Item>)
    requires Present(d, m)
    ensures Present(Append(d, fd, items), m) && Agree(d, Append(d, fd, items), m, fd)
  {
    LiveInDisk(d, m);
  }

  lemma FlushLeads(s: State, h: History, start: nat, n: nat)
    requires Leads(s, h, start)
    ensures Leads(FlushItems(s, n), h, start)
  {
    hide RunItems;
    var t, k := FlushItems(s, n), Min(n, |s.buf|);
    assert s.buf[..k] + s.buf[k..] == s.buf;
    assert t.disk[s.fd.file].items + t.buf == s.disk[s.fd.file].items + s.buf;
  }

  lemma FlushLog(s: State, start: nat, n: nat)
    requires Valid(s.man) && Present(s.disk, s.man) && LogGood(s, start)
    ensures LogGood(FlushItems(s, n), start)
  {
    hide RunItems, Before;
    AppendPresent(s.disk, s.man, s.fd, s.buf[..Min(n, |s.buf|)]);
    BeforeFrame(s.disk, FlushItems(s, n).disk, s.man, s.fd, start);
    FlushLeads(s, Before(s.disk, s.man, start).h, start, n);
  }

  lemma FlushKeeps(s: State, start: nat, n: nat)
    requires Inv(s, start) && s.phase == Idle && s.aof != Off
    ensures Inv(FlushItems(s, n), start)
  {
    hide RunItems, Before, Valid;
    AppendPresent(s.disk, s.man, s.fd, s.buf[..Min(n, |s.buf|)]);
    if s.aof == On {
      FlushLog(s, start, n);
    }
    if s.child.Child? {
      if Leads(s, s.child.snapshot, start) {
        FlushLeads(s, s.child.snapshot, start, n);
      }
      if s.child.ended == Succeeded {
        FlushOther(s, n, TempRewrite(s.child.pid));
      }
    }
  }

  lemma FlushOther(s: State, n: nat, f: File)
    requires f in s.disk && s.disk[f].Snapshot?
    ensures HasFile(FlushItems(s, n), f, s.disk[f])
  {}

  lemma BeginKeeps(s: State, start: nat, n: nat, starting: bool)
    requires Inv(s, start) && s.phase == Idle && s.child == NoChild
    requires s.aof == On ==> n >= |s.buf|
    requires starting ==> s.aof == WaitRewrite
    ensures Inv(Begin(s, n, starting), start)
  {
    hide RunItems, Before, Valid;
    var u := s.(selected := -1);
    AppendPresent(s.disk, s.man, s.fd, s.buf[..Min(n, |s.buf|)]);
    if s.aof == On {
      FlushLog(u, start, n);
    }
  }

  lemma OpenPhase(s: State, ok: bool)
    requires PhaseGood(s) && s.phase.Opening?
    ensures PhaseGood(Open(s, ok))
    ensures s.child == NoChild && s.buf == []
  {}

  lemma OpenOther(s: State, start: nat, f: File)
    requires Inv(s, start) && s.phase.Opening? && s.aof != Off
    requires f == if s.aof == WaitRewrite then TempIncr else IncrFile(s.man.incrSeq + 1)
    ensures var d := s.disk[f := Log([])];
            Present(d, s.man) && (s.aof == On ==> LogGood(s.(disk := d), start))
  {
    hide RunItems, Before, PhaseGood;
    var t := s.(disk := s.disk[f := Log([])]);
    NotLive(s.man, f);
    OtherFile(s.disk, t.disk, s.man, f);
    if s.aof == On {
      assert Live(s.man, s.fd.file);
      ElsewhereKept(s, t, f, start);
    }
  }

  lemma OpenKeeps(s: State, start: nat, ok: bool)
    requires Inv(s, start) && s.phase.Opening?
    ensures Inv(Open(s, ok), start)
  {
    OpenPhase(s, ok);
    if s.aof != Off && ok {
      OpenOther(s, start, if s.aof == WaitRewrite then TempIncr else IncrFile(s.man.incrSeq + 1));
    }
    hide RunItems, Before, PhaseGood, Present, Valid, Leads;
  }

  /** A manifest that names one more, empty file describes the same log. */
  lemma OneMoreFile(s: State, t: State, start: nat)
    requires Valid(s.man) && SameFiles(s.man, s.diskMan) && Present(s.disk, s.man) && LogGood(s, start) && s.buf == []
    requires t.man == NewIncr(s.man) && t.fd == Named(IncrFile(t.man.incrSeq)) && t.disk == s.disk
    requires HasFile(t, IncrFile(t.man.incrSeq), Log([])) && t.buf == [] && t.selected == -1 && t.mem == s.mem
    ensures LogGood(t, start)
  {
    hide RunItems;
    LogRecovers(s, start);
    assert t.man.incr[..|t.man.incr| - 1] == s.man.incr;
    assert Before(t.disk, t.man, start) == Recover(s.disk, s.diskMan, start);
    var r := Recover(s.disk, s.diskMan, start);
    RunItemsNone(r.h, r.cur);
    RunItemsNone(r.h, start);
    assert t.disk[t.fd.file].items + t.buf == [];
  }

  lemma WriteNewKeeps(s: State, start: nat, r: Persist)
    requires Inv(s, start) && s.phase.PersistingNew? && r != WrittenButFailed
    ensures Inv(WriteNew(s, r), start)
  {
    hide RunItems, Before, Valid;
    if r == Written {
      NewIncrValid(s.man);
      OneMoreFile(s, WriteNew(s, r), start);
    }
  }

  lemma RunItemsNone(h: History, cur: nat)
    ensures RunItems(h, cur, []) == (h, cur)
  {}

  lemma ForkKeeps(s: State, start: nat, ok: bool, pid: nat)
    requires Inv(s, start) && s.phase.Forking?
    ensures Inv(DoFork(s, ok, pid), start)
  {
    hide RunItems, Before, Valid;
    RunItemsNone(s.mem, start);
    if s.aof != Off {
      assert s.disk[s.fd.file].items + s.buf == [];
    }
  }

  /** A change to one file that is neither live nor open keeps everything about the log. */
  lemma EndChildKeeps(s: State, start: nat, ok: bool)
    requires Inv(s, start) && s.child.Child? && s.child.ended == Running
    ensures Inv(EndChild(s, ok), start)
  {
    hide RunItems, Before;
    if ok {
      var t, f := EndChild(s, ok), TempRewrite(s.child.pid);
      NotLive(s.man, f);
      ElsewhereKept(s, t, f, start);
    }
  }

  lemma HandleKeeps(s: State, start: nat, rdb: bool)
    requires Inv(s, start) && s.phase == Idle && s.child.Child? && s.child.ended != Running
    ensures Inv(s.(phase := if s.child.ended == Succeeded then RenamingBase(rdb) else Cleaning), start)
  {
    hide RunItems, Before, Valid;
  }

  /** A rename whose ends are neither live nor open. */
  lemma RenameElsewhere(s: State, f: File, g: File, t: State, start: nat)
    requires Valid(s.man) && Present(s.disk, s.man) && f in s.disk && f != g
    requires !Live(s.man, f) && !Live(s.man, g) && s.fd != Named(f) && s.fd != Named(g)
    requires t == Rename(s, f, g).(phase := t.phase)
    ensures Present(t.disk, t.man) && HasFile(t, g, s.disk[f]) && t.fd == s.fd
    ensures LogGood(s, start) ==> LogGood(t, start)
    ensures forall h :: Leads(s, h, start) ==> Leads(t, h, start)
  {
    hide LogGood, Leads;
    var u := s.(disk := s.disk - {f});
    ElsewhereKept(s, u, f, start);
    ElsewhereKept(u, t, g, start);
  }

  lemma RenameBaseKeeps(s: State, start: nat, ok: bool)
    requires Inv(s, start) && s.phase.RenamingBase? && s.child.Child?
    ensures Inv(DoRenameBase(s, ok), start)
  {
    hide RunItems, Before, Present, Valid;
    if ok && TempRewrite(s.child.pid) in s.disk {
      var t := DoRenameBase(s, ok);
      var next := NewBase(s.man, s.phase.rdb);
      var f, g := TempRewrite(s.child.pid), BaseFile(next.baseSeq, s.phase.rdb);
      NotLive(s.man, f);
      NotLive(s.man, g);
      RenameElsewhere(s, f, g, t, start);
    }
  }

  /** The accumulated file of a waiting log gets its name; the open file follows. */
  lemma RenameOpen(s: State, g: File, t: State, start: nat)
    requires Valid(s.man) && Present(s.disk, s.man) && TempIncr in s.disk && s.fd == Named(TempIncr)
    requires g != TempIncr && !Live(s.man, g)
    requires t == Rename(s, TempIncr, g).(phase := t.phase)
    ensures Present(t.disk, t.man) && t.fd == Named(g)
    ensures forall f :: f != TempIncr && f != g ==>
                          (f in s.disk <==> f in t.disk) && (f in s.disk ==> s.disk[f] == t.disk[f])
    ensures forall h :: Leads(s, h, start) ==> Leads(t, h, start)
  {
    hide RunItems;
    NotLive(s.man, TempIncr);
    var d := s.disk - {TempIncr};
    OtherFile(s.disk, d, s.man, TempIncr);
    OtherFile(d, t.disk, s.man, g);
  }

  lemma RenameIncrKeeps(s: State, start: nat, ok: bool)
    requires Inv(s, start) && s.phase.RenamingIncr?
    ensures Inv(DoRenameIncr(s, ok), start)
  {
    hide RunItems, Before, Present, Valid;
    if ok && TempIncr in s.disk {
      var next := NewIncr(s.phase.next);
      var g := IncrFile(next.incrSeq);
      NotLive(s.man, g);
      RenameOpen(s, g, DoRenameIncr(s, ok), start);
    }
  }

  /** The new manifest describes the log that started with the child's data set. */
  lemma NewLog(t: State, snapshot: History, start: nat)
    requires |t.man.base| == 1 && HasFile(t, t.man.base[0].file, Snapshot(snapshot))
    requires |t.man.incr| == 1 && t.fd == Named(t.man.incr[0].file) && Leads(t, snapshot, start)
    ensures LogGood(t, start)
  {
    hide RunItems;
    assert t.man.incr[..0] == [];
    assert Before(t.disk, t.man, start) == Data(snapshot, start);
  }

  /** The manifest that a finished rewrite installs. */
  function DoneManifest(m: Manifest, rdb: bool, wait: bool, open: bool): Manifest {
    MarkRewritten(if wait then NewIncr(NewBase(m, rdb)) else NewBase(m, rdb), open)
  }

  lemma DoneValid(m: Manifest, rdb: bool, wait: bool, open: bool)
    requires Valid(m)
    ensures var r := DoneManifest(m, rdb, wait, open);
            && Valid(r) && r.base == [Info(BaseFile(m.baseSeq + 1, rdb), m.baseSeq + 1, Base)]
            && forall i :: 0 <= i < |r.incr| ==>
                             r.incr[i] in m.incr || (wait && r.incr[i].file == IncrFile(m.incrSeq + 1))
    ensures var r := DoneManifest(m, rdb, wait, open);
            open && wait ==> |r.incr| == 1 && r.incr[0].file == IncrFile(m.incrSeq + 1)
    ensures var r := DoneManifest(m, rdb, wait, open);
            open && !wait && |m.incr| > 0 ==> r.incr == [m.incr[|m.incr| - 1]]
  {
    hide Valid, AllHistory;
    NewBaseValid(m, rdb);
    NewIncrValid(NewBase(m, rdb));
    MarkRewrittenValid(if wait then NewIncr(NewBase(m, rdb)) else NewBase(m, rdb), open);
    var n := if wait then NewIncr(NewBase(m, rdb)) else NewBase(m, rdb);
    assert n.incr == if wait then m.incr + [Info(IncrFile(m.incrSeq + 1), m.incrSeq + 1, Incr)] else m.incr;
    assert DoneManifest(m, rdb, wait, open).incr == n.incr[Rewritten(n, open)..];
  }

  lemma DonePresent(s: State, m: Manifest, rdb: bool)
    requires Present(s.disk, s.man) && s.child.Child?
    requires HasFile(s, BaseFile(s.man.baseSeq + 1, rdb), Snapshot(s.child.snapshot))
    requires m.base == [Info(BaseFile(s.man.baseSeq + 1, rdb), s.man.baseSeq + 1, Base)]
    requires forall i :: 0 <= i < |m.incr| ==>
               m.incr[i] in s.man.incr || (m.incr[i].file in s.disk && s.disk[m.incr[i].file].Log?)
    ensures Present(s.disk, m)
  {
    forall i | 0 <= i < |m.incr| ensures m.incr[i].file in s.disk && s.disk[m.incr[i].file].Log? {
      if m.incr[i] in s.man.incr {
        var j :| 0 <= j < |s.man.incr| && s.man.incr[j] == m.incr[i];
      }
    }
  }

  /** What the invariant says of a rewrite about to be committed. */
  lemma CommitFacts(s: State, start: nat, rdb: bool)
    requires Inv(s, start) && s.phase.PersistingDone?
    requires s.phase.next == (if s.aof == WaitRewrite then NewIncr(NewBase(s.man, rdb)) else NewBase(s.man, rdb))
    ensures Valid(s.man) && Present(s.disk, s.man) && s.child.Child?
    ensures s.fd.Named? ==> s.fd.file.TempIncr? || s.fd.file.IncrFile?
    ensures s.aof != Off ==> Leads(s, s.child.snapshot, start)
    ensures s.aof == WaitRewrite ==> s.fd == Named(IncrFile(s.man.incrSeq + 1))
    ensures s.aof == On ==> |s.man.incr| > 0 && s.fd == Named(s.man.incr[|s.man.incr| - 1].file)
    ensures s.aof == Off ==> s.buf == []
  {
    hide RunItems, Before, Valid, Present, Leads;
  }

  /** What the invariant asks for after the commit. */
  lemma CommittedGood(t: State, start: nat)
    requires Valid(t.man) && t.diskMan == t.man && Present(t.disk, t.man) && t.child.Child?
    requires t.phase == DeletingHistory(true, false)
    requires t.fd.Named? ==> t.fd.file.TempIncr? || t.fd.file.IncrFile?
    requires t.aof != Off ==> LogGood(t, start)
    requires t.aof == Off ==> t.buf == []
    ensures Inv(t, start)
  {
    hide Valid, Present, LogGood, Leads;
  }

  /** The commit of a rewrite. */
  lemma CommitKeeps(s: State, start: nat, rdb: bool)
    requires Inv(s, start) && s.phase.PersistingDone? && s.child.Child?
    requires s.phase.next == (if s.aof == WaitRewrite then NewIncr(NewBase(s.man, rdb)) else NewBase(s.man, rdb))
    requires HasFile(s, BaseFile(s.man.baseSeq + 1, rdb), Snapshot(s.child.snapshot))
    ensures Inv(WriteDone(s, Written), start)
  {
    hide Inv, RunItems, LogGood, Valid, Present;
    CommitFacts(s, start, rdb);
    var wait := s.aof == WaitRewrite;
    var t, m := WriteDone(s, Written), DoneManifest(s.man, rdb, wait, s.fd != NoFd);
    assert t == s.(diskMan := m, man := m, phase := DeletingHistory(true, false));
    hide DoneManifest, WriteDone, NewIncr, NewBase;
    DoneValid(s.man, rdb, wait, s.fd != NoFd);
    DonePresent(s, m, rdb);
    if s.aof != Off {
      NewLog(t, s.child.snapshot, start);
    }
    CommittedGood(t, start);
  }

  lemma WriteDoneKeeps(s: State, start: nat, r: Persist)
    requires Inv(s, start) && s.phase.PersistingDone? && r != WrittenButFailed
    ensures Inv(WriteDone(s, r), start)
  {
    hide RunItems, Before, Valid;
    var next := s.phase.next;
    var rdb :| next == (if s.aof == WaitRewrite then NewIncr(NewBase(s.man, rdb)) else NewBase(s.man, rdb)) &&
               HasFile(s, BaseFile(next.baseSeq, rdb), Snapshot(s.child.snapshot));
    if r == Written {
      hide Inv;
      CommitKeeps(s, start, rdb);
    }
  }

  /** Unlinking a file that is not live. */
  lemma UnlinkElsewhere(s: State, f: File, start: nat)
    requires Valid(s.man) && Present(s.disk, s.man) && !Live(s.man, f)
    ensures var t := Unlink(s, f);
            && Present(t.disk, s.man)
            && (LogGood(s, start) ==> LogGood(t, start))
            && (s.fd != Named(f) ==> forall h :: Leads(s, h, start) ==> Leads(t, h, start))
  {
    hide RunItems, Before;
    var t := Unlink(s, f);
    OtherFile(s.disk, t.disk, s.man, f);
    if s.fd != Named(f) {
      ElsewhereKept(s, t, f, start);
    }
  }

  lemma UndoneFiles(s: State)
    requires s.phase.UndoingBase? && PhaseGood(s)
    ensures var next := s.phase.next;
            && |next.base| == 1 && next.base[0].file.BaseFile? && next.base[0].file.num == s.man.baseSeq + 1
            && (next.incrSeq == s.man.incrSeq || (s.aof == WaitRewrite && next.incrSeq == s.man.incrSeq + 1))
  {
    var rdb :| s.phase.next == NewBase(s.man, rdb) ||
        (s.aof == WaitRewrite && s.phase.next == NewIncr(NewBase(s.man, rdb)));
  }

  lemma UndoBaseKeeps(s: State, start: nat)
    requires Inv(s, start) && s.phase.UndoingBase?
    ensures Inv(DoUndoBase(s), start)
  {
    hide RunItems, Before, Valid;
    UndoneFiles(s);
    var f := s.phase.next.base[0].file;
    NotLive(s.man, f);
    UnlinkElsewhere(s, f, start);
  }

  lemma UndoIncrKeeps(s: State, start: nat)
    requires Inv(s, start) && s.phase.UndoingIncr?
    ensures Inv(Unlink(s, IncrFile(s.phase.next.incrSeq)).(phase := Cleaning), start)
  {
    hide RunItems, Before;
    var f := IncrFile(s.phase.next.incrSeq);
    NotLive(s.man, f);
    UnlinkElsewhere(s, f, start);
  }

  lemma FinishKeeps(s: State, start: nat, finishing: bool)
    requires Inv(s, start) && (s.phase.DeletingHistory? || s.phase.PersistingHistory?) && s.phase.finishing == finishing
    ensures Inv(Finish(s, finishing), start)
  {
    hide RunItems, Before, Valid;
  }

  lemma DeleteOne(s: State, start: nat)
    requires Inv(s, start) && s.phase.DeletingHistory? && |s.man.history| > 0
    ensures Inv(Unlink(s, s.man.history[0].file).(man := s.man.(history := s.man.history[1..]),
                                                  phase := DeletingHistory(s.phase.finishing, true)), start)
  {
    hide RunItems, Before;
    var f := s.man.history[0].file;
    assert Obsolete(s.man, s.man.history[0]);
    ObsoleteNotLive(s.man, s.man.history[0]);
    UnlinkElsewhere(s, f, start);
    var t := Unlink(s, f).(man := s.man.(history := s.man.history[1..]),
        phase := DeletingHistory(s.phase.finishing, true));
    ShorterHistory(s.man);
    if LogGood(s, start) {
      LogGoodSame(Unlink(s, f), t, start);
    }
    if s.fd == Named(f) && s.aof != Off {
      assert s.aof == On ==> Live(s.man, f);
    }
  }

  lemma LogGoodSame(s: State, t: State, start: nat)
    requires LogGood(s, start) && t.man.base == s.man.base && t.man.incr == s.man.incr
    requires t.disk == s.disk && t.fd == s.fd && t.buf == s.buf && t.mem == s.mem && t.selected == s.selected
    ensures LogGood(t, start)
  {
    hide RunItems;
  }

  lemma ShorterHistory(m: Manifest)
    requires Valid(m) && |m.history| > 0
    ensures Valid(m.(history := m.history[1..]))
  {
    var r := m.(history := m.history[1..]);
    forall i | 0 <= i < |r.history| ensures Obsolete(r, r.history[i]) {
      assert Obsolete(m, m.history[i + 1]);
    }
  }

  lemma DeleteKeeps(s: State, start: nat, gc: bool)
    requires Inv(s, start) && s.phase.DeletingHistory?
    ensures Inv(DoDelete(s, gc), start)
  {
    if !s.phase.some && (!gc || |s.man.history| == 0) {
      hide Inv;
      FinishKeeps(s, start, s.phase.finishing);
    } else if |s.man.history| == 0 {
      hide RunItems, Before, Valid;
    } else {
      hide Inv;
      DeleteOne(s, start);
    }
  }

  lemma PersistHistoryKeeps(s: State, start: nat, r: Persist)
    requires Inv(s, start) && s.phase.PersistingHistory?
    ensures Inv(Finish(if r == NotWritten then s else s.(diskMan := s.man), s.phase.finishing), start)
  {
    hide RunItems, Before, Valid;
    var t := if r == NotWritten then s else s.(diskMan := s.man);
    assert Inv(t, start);
    FinishKeeps(t, start, s.phase.finishing);
  }

  lemma DropKeepsFiles(s: State, start: nat)
    requires Inv(s, start)
    ensures var t := DropChild(s);
            && Present(t.disk, s.man) && t.fd == s.fd && t.child == NoChild
            && (LogGood(s, start) ==> LogGood(t, start))
  {
    hide RunItems, Before;
    if s.child.Child? {
      NotLive(s.man, TempRewrite(s.child.pid));
      UnlinkElsewhere(s, TempRewrite(s.child.pid), start);
      if LogGood(s, start) {
        LogGoodSame(Unlink(s, TempRewrite(s.child.pid)), DropChild(s), start);
      }
    }
  }

  lemma CleanKeeps(s: State, start: nat)
    requires Inv(s, start) && s.phase == Cleaning
    ensures Inv(DoClean(s), start)
  {
    hide RunItems, Before, Valid;
    DropKeepsFiles(s, start);
  }

  lemma CleanIncrKeeps(s: State, start: nat)
    requires Inv(s, start) && s.phase == CleaningIncr
    ensures Inv(Unlink(s, TempIncr).(phase := Idle), start)
  {
    hide RunItems, Before;
    NotLive(s.man, TempIncr);
    UnlinkElsewhere(s, TempIncr, start);
  }

  lemma CollectKeeps(s: State, start: nat)
    requires Inv(s, start) && s.phase == Idle
    ensures Inv(s.(phase := DeletingHistory(false, false)), start)
  {
    hide RunItems, Before, Valid;
  }

  lemma StartKeeps(s: State, start: nat, later: bool)
    requires Inv(s, start) && Resting(s) && s.phase == Idle && s.aof == Off && (later ==> Harmless(s))
    ensures Inv(DoStart(s, later), start)
  {
    hide RunItems, Before, Valid;
    RunItemsNone(s.mem, start);
    if s.fd == Named(TempIncr) {
      assert s.disk[TempIncr].items + s.buf == [];
    }
    if !later {
      DropKeepsFiles(s, start);
      var t := DropChild(s.(aof := WaitRewrite));
      assert Inv(t, start);
      BeginKeeps(t, start, 0, true);
    }
  }

  lemma OffKeeps(s: State, start: nat)
    requires Inv(s, start) && s.phase == Idle
    ensures Inv(s.(fd := NoFd, selected := -1, aof := Off, buf := []), start)
  {
    hide RunItems, Before, Valid;
  }

  lemma StopKeeps(s: State, start: nat, n: nat)
    requires Inv(s, start) && s.phase == Idle && s.aof != Off
    ensures Inv(DoStop(s, n), start)
  {
    FlushKeeps(s, start, n);
    var u := FlushItems(s, n).(fd := NoFd, selected := -1, aof := Off, buf := []);
    assert DoStop(s, n) == DropChild(u);
    OffKeeps(FlushItems(s, n), start);
    hide RunItems, Before, Valid, FlushItems, DoStop;
    DropKeepsFiles(u, start);
  }

  lemma ReloadedSame(m: Manifest)
    requires Valid(m) && |m.incr| > 0
    ensures Reloaded(m) == m
  {}

  lemma RestartKeeps(s: State, start: nat)
    requires Inv(s, start) && s.aof == On
    ensures Inv(DoRestart(s, start), start)
  {
    hide RunItems;
    var t := DoRestart(s, start);
    LogRecovers(s, start);
    ReloadedSame(s.diskMan);
    RecoverLast(s.disk, s.diskMan, start);
    var last := s.diskMan.incr[|s.diskMan.incr| - 1];
    assert t.disk[last.file].items + t.buf == t.disk[last.file].items;
  }

  // ------------------------------------------------------------------------------
  // Whole runs
  // ------------------------------------------------------------------------------

  /** Every allowed step keeps the invariant. */
  lemma StepKeeps(s: State, e: Event, start: nat)
    requires Inv(s, start) && Resting(s) && Allowed(s, e)
    ensures Inv(Apply(s, e, start), start)
  {
    hide Inv;
    match e
    case Feed(dictid, cmd) => FeedKeeps(s, start, dictid, cmd);
    case Flush(n) => FlushKeeps(s, start, n);
    case BeginRewrite(n) => BeginKeeps(s, start, n, false);
    case OpenNew(ok) => OpenKeeps(s, start, ok);
    case PersistNew(r) => WriteNewKeeps(s, start, r);
    case Fork(ok, pid) => ForkKeeps(s, start, ok, pid);
    case ChildEnds(ok) => EndChildKeeps(s, start, ok);
    case Handle(rdb) => HandleKeeps(s, start, rdb);
    case RenameBase(ok) => RenameBaseKeeps(s, start, ok);
    case RenameIncr(ok) => RenameIncrKeeps(s, start, ok);
    case PersistDone(r) => WriteDoneKeeps(s, start, r);
    case UndoBase => UndoBaseKeeps(s, start);
    case UndoIncr => UndoIncrKeeps(s, start);
    case DeleteHistory(gc) => DeleteKeeps(s, start, gc);
    case PersistHistory(r) => PersistHistoryKeeps(s, start, r);
    case Clean => CleanKeeps(s, start);
    case CleanIncr => CleanIncrKeeps(s, start);
    case CollectGarbage => CollectKeeps(s, start);
    case StartAof(later) => StartKeeps(s, start, later);
    case StopAof(n) => StopKeeps(s, start, n);
    case Restart => RestartKeeps(s, start);
  }

  lemma RestingFlush(s: State, n: nat)
    requires s.phase == Idle && Resting(s) && (s.aof == Off ==> s.buf == [])
    ensures Resting(FlushItems(s.(selected := -1), n))
  {
    if s.aof == Off {
      var none := s.buf[..Min(n, |s.buf|)];
      assert none == [] && none + none == none;
    }
  }

  lemma RestingStart(s: State, later: bool)
    requires Resting(s) && s.phase == Idle && s.aof == Off && s.buf == []
    ensures Resting(DoStart(s, later))
  {
    assert s.buf[..0] == [];
  }

  lemma RestingDelete(s: State, gc: bool)
    requires Valid(s.man) && Resting(s) && s.phase.DeletingHistory?
    ensures Resting(DoDelete(s, gc))
  {
    if |s.man.history| > 0 {
      assert Obsolete(s.man, s.man.history[0]);
    }
  }

  lemma RestingStep(s: State, e: Event, start: nat)
    requires PhaseGood(s) && Resting(s) && Possible(s, e)
    requires !e.BeginRewrite? && !e.StartAof? && !e.DeleteHistory?
    ensures Resting(Apply(s, e, start))
  {
    hide RunItems, LoadIncr, Recover, NewIncr, NewBase, MarkRewritten, Append;
    if e == UndoBase {
      UndoneFiles(s);
    }
  }

  /** No step leaves more than an empty temporary file open behind a log that is off. */
  lemma RestingKept(s: State, e: Event, start: nat)
    requires Inv(s, start) && Resting(s) && Possible(s, e)
    ensures Resting(Apply(s, e, start))
  {
    assert PhaseGood(s) && Valid(s.man) && (s.aof == Off ==> s.buf == []);
    hide Inv, PhaseGood, Valid, Resting;
    match e
    case BeginRewrite(n) =>
      RestingFlush(s, n);
      RestingBegin(s, n);
    case StartAof(later) => RestingStart(s, later);
    case DeleteHistory(gc) => RestingDelete(s, gc);
    case _ => RestingStep(s, e, start);
  }

  lemma RestingBegin(s: State, n: nat)
    requires s.phase == Idle && Resting(FlushItems(s.(selected := -1), n))
    ensures Resting(Begin(s, n, false))
  {
    hide Append;
  }

  /** The server before its first start of the log. */
  const INIT_OFF: State := State(Off, EMPTY, NoFd, [], -1, NoChild, Idle, [], map[], EMPTY)

  /** The server after a first start with the log on and an empty data set. */
  const INIT_ON: State :=
    var m := NewIncr(NewBase(EMPTY, true));
    State(On, m, Named(IncrFile(1)), [], -1, NoChild, Idle, [],
          map[BaseFile(1, true) := Snapshot([]), IncrFile(1) := Log([])], m)

  lemma InitGood(start: nat)
    ensures Inv(INIT_OFF, start) && Inv(INIT_ON, start) && Resting(INIT_OFF) && Resting(INIT_ON)
  {
    var m := NewIncr(NewBase(EMPTY, true));
    assert Valid(EMPTY);
    NewBaseValid(EMPTY, true);
    NewIncrValid(NewBase(EMPTY, true));
    assert m.incr[..0] == [] && m.incr == [Info(IncrFile(1), 1, Incr)] && m.base == [Info(BaseFile(1, true), 1, Base)];
    assert Before(INIT_ON.disk, m, start) == Data([], start);
    RunItemsNone([], start);
  }

  /** `ss` are the states passed through by the events `es`; with `safe`, only allowed ones. */
  predicate IsRun(ss: seq<State>, es: seq<Event>, start: nat, safe: bool) {
    && |ss| == |es| + 1
    && forall i :: 0 <= i < |es| ==>
         Possible(ss[i], es[i]) && (safe ==> Allowed(ss[i], es[i])) && ss[i + 1] == Apply(ss[i], es[i], start)
  }

  /** The database in which a loader starts does not matter to a restart: the commands tell. */
  lemma RestartSame(s: State, a: nat, b: nat)
    requires Inv(s, a) && Inv(s, b) && s.aof == On
    ensures DoRestart(s, a) == DoRestart(s, b)
  {
    hide RunItems, Commands, PhaseGood, LogGood, Recover, Valid, Present;
    LogRecovers(s, a);
    LogRecovers(s, b);
    var p, q := Recover(s.disk, s.diskMan, a), Recover(s.disk, s.diskMan, b);
    RunItemsExtends(p.h, p.cur, s.buf);
    RunItemsExtends(q.h, q.cur, s.buf);
    assert |p.h| == |q.h|;
    assert p.h == s.mem[..|p.h|] && q.h == s.mem[..|q.h|];
  }

  /** Whatever database the loaders of a run start in, the invariant holds for any other. */
  lemma {:induction false} RunFromKeeps(ss: seq<State>, es: seq<Event>, start: nat, k: nat, other: nat)
    requires IsRun(ss, es, start, true) && Inv(ss[0], start) && Inv(ss[0], other) && Resting(ss[0]) && k < |ss|
    ensures Inv(ss[k], start) && Inv(ss[k], other) && Resting(ss[k])
  {
    hide Inv, Allowed, Resting;
    if k > 0 {
      RunFromKeeps(ss, es, start, k - 1, other);
      var s, e := ss[k - 1], es[k - 1];
      StepKeeps(s, e, start);
      StepKeeps(s, e, other);
      RestingKept(s, e, start);
      if e.Restart? {
        RestartSame(s, start, other);
      }
      ApplySame(s, e, start, other);
    }
  }

  lemma ApplySame(s: State, e: Event, start: nat, other: nat)
    requires Possible(s, e) && (e.Restart? ==> DoRestart(s, start) == DoRestart(s, other))
    ensures Apply(s, e, start) == Apply(s, e, other)
  {
    hide DoRestart;
  }

  lemma RunKeeps(ss: seq<State>, es: seq<Event>, start: nat, k: nat, other: nat)
    requires IsRun(ss, es, start, true) && ss[0] in {INIT_OFF, INIT_ON} && k < |ss|
    ensures Inv(ss[k], other) && Resting(ss[k])
  {
    InitGood(start);
    InitGood(other);
    RunFromKeeps(ss, es, start, k, other);
  }

  /** The number of commands among some items. */
  function Commands(items: seq<Item>): nat {
    if |items| == 0 then 0 else Commands(items[..|items| - 1]) + if items[|items| - 1].Run? then 1 else 0
  }

  lemma {:induction false} RunItemsExtends(h: History, cur: nat, items: seq<Item>)
    ensures h <= RunItems(h, cur, items).0 && |RunItems(h, cur, items).0| == |h| + Commands(items)
  {
    if |items| > 0 {
      RunItemsExtends(h, cur, items[..|items| - 1]);
    }
  }

  /** What a crash leaves: the data set in memory, short of exactly the commands still in the
      buffer, in whatever database a loader enters the files. */
  predicate Safe(s: State, start: nat) {
    s.aof == On ==>
      var r := Recover(s.disk, s.diskMan, start);
      && r.Data? && RunItems(r.h, r.cur, s.buf).0 == s.mem
      && r.h <= s.mem && |s.mem| == |r.h| + Commands(s.buf)
  }

  lemma InvSafe(s: State, start: nat)
    requires Inv(s, start)
    ensures Safe(s, start)
  {
    hide RunItems, LogGood, PhaseGood, Commands;
    if s.aof == On {
      LogRecovers(s, start);
      var r := Recover(s.disk, s.diskMan, start);
      RunItemsExtends(r.h, r.cur, s.buf);
    }
  }

  /** The central guarantee: at every point of every run, with loaders that started in any
      database, a crash is recovered from any database. */
  lemma CrashSafe(ss: seq<State>, es: seq<Event>, start: nat, k: nat, other: nat)
    requires IsRun(ss, es, start, true) && ss[0] in {INIT_OFF, INIT_ON} && k < |ss|
    ensures Safe(ss[k], other)
  {
    hide Inv, Safe, IsRun;
    RunKeeps(ss, es, start, k, other);
    InvSafe(ss[k], other);
  }

  // ------------------------------------------------------------------------------
  // Each incr file on its own
  // ------------------------------------------------------------------------------

  /** What items do does not depend on the history before them. */
  lemma {:induction false} RunItemsShift(h: History, cur: nat, items: seq<Item>)
    ensures RunItems(h, cur, items) == (h + RunItems([], cur, items).0, RunItems([], cur, items).1)
  {
    if |items| > 0 {
      RunItemsShift(h, cur, items[..|items| - 1]);
      var (g, db) := RunItems([], cur, items[..|items| - 1]);
      var last := items[|items| - 1];
      if last.Run? {
        var d := Done(if last.plain then -1 else db, last.cmd);
        assert h + g + [d] == h + (g + [d]);
      }
    } else {
      assert h + [] == h;
    }
  }

  /** The history behind the first `i` incr files is a prefix of the whole, of a length that does
      not depend on the database. */
  lemma {:induction false} LoadIncrPrefix(d: map<File, Content>, incr: seq<Info>, h: History, a: nat, b: nat, i: nat)
    requires i <= |incr| && forall j :: 0 <= j < |incr| ==> incr[j].file in d && d[incr[j].file].Log?
    ensures var p, q := LoadIncr(d, incr, h, a), LoadIncr(d, incr, h, b);
            var x, y := LoadIncr(d, incr[..i], h, a), LoadIncr(d, incr[..i], h, b);
            && p.Data? && q.Data? && x.Data? && y.Data?
            && x.h <= p.h && y.h <= q.h && |x.h| == |y.h| && |p.h| == |q.h|
    decreases |incr|
  {
    if |incr| == 0 {
    } else if i == |incr| {
      assert incr[..i] == incr;
      LoadIncrPrefix(d, incr[..|incr| - 1], h, a, b, 0);
      LoadIncrMore(d, incr, h, a);
      LoadIncrMore(d, incr, h, b);
    } else {
      assert incr[..|incr| - 1][..i] == incr[..i];
      LoadIncrPrefix(d, incr[..|incr| - 1], h, a, b, i);
      LoadIncrMore(d, incr, h, a);
      LoadIncrMore(d, incr, h, b);
    }
  }

  lemma LoadIncrMore(d: map<File, Content>, incr: seq<Info>, h: History, a: nat)
    requires |incr| > 0 && LoadIncr(d, incr[..|incr| - 1], h, a).Data?
    requires incr[|incr| - 1].file in d && d[incr[|incr| - 1].file].Log?
    ensures var x, items := LoadIncr(d, incr[..|incr| - 1], h, a), d[incr[|incr| - 1].file].items;
            var p := LoadIncr(d, incr, h, a);
            && p.Data? && p.h == RunItems(x.h, a, items).0
            && x.h <= p.h && |p.h| == |x.h| + Commands(items)
  {
    RunItemsExtends(LoadIncr(d, incr[..|incr| - 1], h, a).h, a, d[incr[|incr| - 1].file].items);
  }

  /** If the whole log gives the same from two databases, so does each file. */
  lemma FileSame(d: map<File, Content>, incr: seq<Info>, h: History, a: nat, b: nat, i: nat)
    requires i < |incr| && forall j :: 0 <= j < |incr| ==> incr[j].file in d && d[incr[j].file].Log?
    requires LoadIncr(d, incr, h, a).Data? && LoadIncr(d, incr, h, b).Data?
    requires LoadIncr(d, incr, h, a).h == LoadIncr(d, incr, h, b).h
    ensures RunItems([], a, d[incr[i].file].items).0 == RunItems([], b, d[incr[i].file].items).0
  {
    hide RunItems, LoadIncr, Commands;
    LoadIncrPrefix(d, incr, h, a, b, i);
    LoadIncrPrefix(d, incr, h, a, b, i + 1);
    var items := d[incr[i].file].items;
    assert incr[..i + 1][..i] == incr[..i] && incr[..i + 1][i] == incr[i];
    LoadIncrMore(d, incr[..i + 1], h, a);
    LoadIncrMore(d, incr[..i + 1], h, b);
    var x, y := LoadIncr(d, incr[..i], h, a).h, LoadIncr(d, incr[..i], h, b).h;
    var p := LoadIncr(d, incr, h, a).h;
    assert x == p[..|x|] && y == p[..|y|];
    RunItemsShift(x, a, items);
    RunItemsShift(x, b, items);
    var v, w := RunItems(x, a, items).0, RunItems(x, b, items).0;
    assert v == p[..|v|] && w == p[..|w|];
    assert RunItems([], a, items).0 == v[|x|..] && RunItems([], b, items).0 == w[|x|..];
  }

  lemma SameHistory(s: State, a: nat, b: nat)
    requires Inv(s, a) && Inv(s, b) && s.aof == On
    ensures var p, q := Recover(s.disk, s.diskMan, a), Recover(s.disk, s.diskMan, b);
            p.Data? && q.Data? && p.h == q.h
  {
    hide Inv, RunItems, Recover, Commands;
    InvSafe(s, a);
    InvSafe(s, b);
    var p, q := Recover(s.disk, s.diskMan, a), Recover(s.disk, s.diskMan, b);
    assert p.h == s.mem[..|p.h|] && q.h == s.mem[..|q.h|];
  }

  /** Every incr file of the manifest on disk, decoded by itself, runs each command against the
      same database whatever database is current at its start. */
  lemma EachFileAlone(ss: seq<State>, es: seq<Event>, start: nat, k: nat, i: nat, h: History, a: nat, b: nat)
    requires IsRun(ss, es, start, true) && ss[0] in {INIT_OFF, INIT_ON} && k < |ss| && ss[k].aof == On
    requires i < |ss[k].diskMan.incr|
    ensures var s := ss[k]; var f := s.diskMan.incr[i].file;
            && f in s.disk && s.disk[f].Log?
            && RunItems(h, a, s.disk[f].items).0 == RunItems(h, b, s.disk[f].items).0
  {
    RunKeeps(ss, es, start, k, a);
    RunKeeps(ss, es, start, k, b);
    var s := ss[k];
    assert Present(s.disk, s.man) && SameFiles(s.man, s.diskMan);
    SameHistory(s, a, b);
    hide Inv, RunItems, LoadIncr, IsRun;
    var base := LoadBase(s.disk, s.diskMan).h;
    FileSame(s.disk, s.diskMan.incr, base, a, b, i);
    var items := s.disk[s.diskMan.incr[i].file].items;
    RunItemsShift(h, a, items);
    RunItemsShift(h, b, items);
  }

  // ------------------------------------------------------------------------------
  // Files that are left alone
  // ------------------------------------------------------------------------------

  /** What a step may do to a live file: nothing, or an append through the open file. */
  predicate Kept(s: State, t: State, f: File) {
    && f in s.disk && f in t.disk
    && (t.disk[f] == s.disk[f] ||
        (s.fd == Named(f) && s.disk[f].Log? && t.disk[f].Log? && s.disk[f].items <= t.disk[f].items))
  }

  /** The files a step creates, renames or unlinks. */
  function Touched(s: State, e: Event): set<File> {
    match e
    case OpenNew(_) => {TempIncr, IncrFile(s.man.incrSeq + 1)}
    case ChildEnds(_) => if s.child.Child? then {TempRewrite(s.child.pid)} else {}
    case RenameBase(_) =>
      {BaseFile(s.man.baseSeq + 1, true), BaseFile(s.man.baseSeq + 1, false)} +
      if s.child.Child? then {TempRewrite(s.child.pid)} else {}
    case RenameIncr(_) => {TempIncr, IncrFile(s.man.incrSeq + 1)}
    case UndoBase => {BaseFile(s.man.baseSeq + 1, true), BaseFile(s.man.baseSeq + 1, false)}
    case UndoIncr => {IncrFile(s.man.incrSeq + 1)}
    case DeleteHistory(_) => if |s.man.history| > 0 then {s.man.history[0].file} else {}
    case Clean => if s.child.Child? then {TempRewrite(s.child.pid)} else {}
    case CleanIncr => {TempIncr}
    case StartAof(_) => if s.child.Child? then {TempRewrite(s.child.pid)} else {}
    case StopAof(_) => if s.child.Child? then {TempRewrite(s.child.pid)} else {}
    case _ => {}
  }

  lemma TouchedNotLive(s: State, e: Event, f: File)
    requires Valid(s.man) && f in Touched(s, e)
    ensures !Live(s.man, f)
  {
    if e.DeleteHistory? {
      assert Obsolete(s.man, s.man.history[0]);
      ObsoleteNotLive(s.man, s.man.history[0]);
    } else {
      NotLive(s.man, f);
    }
  }

  lemma UntouchedByFlush(s: State, e: Event, start: nat, f: File)
    requires Possible(s, e) && (e.Flush? || e.BeginRewrite? || e.StopAof?) && f in s.disk && f !in Touched(s, e)
    ensures Kept(s, Apply(s, e, start), f)
  {}

  lemma UntouchedByRename(s: State, e: Event, start: nat, f: File)
    requires Possible(s, e) && (e.RenameBase? || e.RenameIncr? || e.OpenNew?) && PhaseGood(s)
    requires f in s.disk && f !in Touched(s, e)
    ensures Kept(s, Apply(s, e, start), f)
  {}

  lemma UntouchedKept(s: State, e: Event, start: nat, f: File)
    requires Possible(s, e) && PhaseGood(s) && f in s.disk && f !in Touched(s, e)
    ensures Kept(s, Apply(s, e, start), f)
  {
    hide RunItems, LoadIncr, NewIncr, NewBase, MarkRewritten;
    if e == UndoBase {
      UndoneFiles(s);
    }
    if e.Flush? || e.BeginRewrite? || e.StopAof? {
      UntouchedByFlush(s, e, start, f);
    } else if e.RenameBase? || e.RenameIncr? || e.OpenNew? {
      UntouchedByRename(s, e, start, f);
    } else {
      hide FlushItems, Open, DoRenameBase, DoRenameIncr;
    }
  }

  /** No step of a run unlinks, renames over or truncates a file that the manifest on disk
      names as base or incr; the only change is an append through the open file. */
  lemma LiveKept(ss: seq<State>, es: seq<Event>, start: nat, k: nat, f: File)
    requires IsRun(ss, es, start, true) && ss[0] in {INIT_OFF, INIT_ON} && k < |es| && Live(ss[k].diskMan, f)
    ensures Kept(ss[k], ss[k + 1], f)
  {
    RunKeeps(ss, es, start, k, start);
    var s, e := ss[k], es[k];
    assert Valid(s.man) && Present(s.disk, s.man) && PhaseGood(s) && Live(s.man, f);
    hide Inv, Apply, Allowed, Valid, PhaseGood, Touched, Kept;
    LiveInDisk(s.disk, s.man);
    if f in Touched(s, e) {
      TouchedNotLive(s, e, f);
    }
    UntouchedKept(s, e, start, f);
  }

  // ------------------------------------------------------------------------------
  // What happens without the conditions of `Allowed`
  // ------------------------------------------------------------------------------

  lemma Forked(s: State, n: nat, pid: nat)
    requires s.aof == On && s.fd != NoFd
    ensures var t := DoFork(WriteNew(Open(Begin(s, n, false), true), Written), true, pid);
            && t.buf == s.buf[Min(n, |s.buf|)..] && t.child == Child(pid, s.mem, Running) && t.mem == s.mem
            && t.selected == -1 && t.fd.Named? && HasFile(t, t.fd.file, Log([]))
  {
    hide Append, NewIncr;
  }

  /** A rewrite of a running log that starts with a buffer not wholly flushed: the new base and
      the new incr file give the data set back exactly if no command was left over. */
  lemma LeftoverIff(s: State, n: nat, pid: nat, start: nat)
    requires Inv(s, start) && s.phase == Idle && s.aof == On && s.child == NoChild
    ensures var t := DoFork(WriteNew(Open(Begin(s, n, false), true), Written), true, pid);
            Leads(t, t.child.snapshot, start) <==> Commands(s.buf[Min(n, |s.buf|)..]) == 0
  {
    var k := Min(n, |s.buf|);
    var t := DoFork(WriteNew(Open(Begin(s, n, false), true), Written), true, pid);
    assert s.fd != NoFd;
    Forked(s, n, pid);
    hide RunItems, Commands, DoFork, WriteNew, Open, Begin, Inv;
    assert t.disk[t.fd.file].items + t.buf == s.buf[k..];
    RunItemsExtends(s.mem, start, s.buf[k..]);
  }

  /** A manifest write that reports failure after its rename: the handler then unlinks the base
      that the manifest on disk names. */
  lemma DirectorySyncFails(s: State, start: nat)
    requires Inv(s, start) && s.phase.PersistingDone?
    ensures var t := DoUndoBase(WriteDone(s, WrittenButFailed));
            Recover(t.disk, t.diskMan, start) == Missing
  {
    hide RunItems, Valid, LogGood, Leads;
    var t := DoUndoBase(WriteDone(s, WrittenButFailed));
    assert t.diskMan.base == s.phase.next.base && |s.phase.next.base| == 1;
    assert s.phase.next.base[0].file !in t.disk;
  }

  lemma Extend(ss: seq<State>, es: seq<Event>, e: Event, start: nat, safe: bool)
    requires IsRun(ss, es, start, safe)
    requires Possible(ss[|es|], e) && (safe ==> Allowed(ss[|es|], e))
    ensures IsRun(ss + [Apply(ss[|es|], e, start)], es + [e], start, safe)
  {
    hide Possible, Allowed, Apply;
    var tt, fs := ss + [Apply(ss[|es|], e, start)], es + [e];
    forall i | 0 <= i < |fs|
      ensures Possible(tt[i], fs[i]) && (safe ==> Allowed(tt[i], fs[i])) && tt[i + 1] == Apply(tt[i], fs[i], start)
    {
      assert i < |es| ==> fs[i] == es[i] && tt[i] == ss[i] && tt[i + 1] == ss[i + 1];
    }
  }

  /** Some run leads from `s` to `t`. */
  ghost predicate Reaches(s: State, t: State, start: nat, safe: bool) {
    exists ss, es :: IsRun(ss, es, start, safe) && ss[0] == s && ss[|es|] == t
  }

  lemma ReachesSelf(s: State, start: nat, safe: bool)
    ensures Reaches(s, s, start, safe)
  {
    assert IsRun([s], [], start, safe);
  }

  lemma ReachesMore(s: State, t: State, e: Event, start: nat, safe: bool)
    requires Reaches(s, t, start, safe) && Possible(t, e) && (safe ==> Allowed(t, e))
    ensures Reaches(s, Apply(t, e, start), start, safe)
  {
    hide Possible, Allowed, Apply;
    var ss, es :| IsRun(ss, es, start, safe) && ss[0] == s && ss[|es|] == t;
    hide IsRun;
    Extend(ss, es, e, start, safe);
    var tt, fs := ss + [Apply(t, e, start)], es + [e];
    assert IsRun(tt, fs, start, safe) && tt[0] == s && tt[|fs|] == Apply(t, e, start);
  }

  /** Everything that allowed steps reach is safe. */
  ghost predicate AllSafe(s: State, start: nat) {
    forall t :: Reaches(s, t, start, true) ==> Safe(t, start)
  }

  /** A log that is off, with a rewrite child whose work can still be used and a temporary incr
      file that does not go with it. */
  predicate Stale(s: State) {
    && s.aof == Off && s.phase == Idle && s.buf == [] && s.child.Child? && s.child.ended != Failed
    && TempIncr in s.disk && (s.fd == NoFd || (s.fd == Named(TempIncr) && HasFile(s, TempIncr, Log([]))))
    && (s.child.ended == Succeeded ==> HasFile(s, TempRewrite(s.child.pid), Snapshot(s.child.snapshot)))
  }

  lemma HarmfulStale(s: State, start: nat)
    requires Inv(s, start) && Resting(s) && s.aof == Off && s.phase == Idle && !Harmless(s)
    ensures Stale(s) && (s.fd == NoFd || s.mem != s.child.snapshot)
  {
    hide RunItems, Valid, Present, LogGood, Leads;
  }

  /** The state of a stale start when the child has ended and its work is being used. */
  function StaleDone(s: State, rdb: bool): State
    requires s.child.Child?
  {
    s.(aof := WaitRewrite, child := s.child.(ended := Succeeded), phase := RenamingBase(rdb),
       disk := s.disk[TempRewrite(s.child.pid) := Snapshot(s.child.snapshot)])
  }

  lemma StaleChildDone(o: State, s: State, rdb: bool, start: nat, safe: bool)
    requires Stale(s) && Reaches(o, DoStart(s, true), start, safe)
    ensures Reaches(o, StaleDone(s, rdb), start, safe)
  {
    hide RunItems, LoadIncr, Reaches;
    var u := DoStart(s, true);
    if s.child.ended == Running {
      ReachesMore(o, u, ChildEnds(true), start, safe);
      u := Apply(u, ChildEnds(true), start);
    } else {
      assert u.disk == u.disk[TempRewrite(s.child.pid) := Snapshot(s.child.snapshot)];
    }
    ReachesMore(o, u, Handle(rdb), start, safe);
    assert StaleDone(s, rdb) == Apply(u, Handle(rdb), start);
  }

  /** The manifest such a start ends with: its incr file is the one that was open, if any. */
  function StaleManifest(s: State, rdb: bool): Manifest {
    DoneManifest(s.man, rdb, true, s.fd != NoFd)
  }

  /** The log is on, and the disk holds the child's data set and nothing that came later. */
  predicate StaleEnd(s: State, u: State, start: nat) {
    && s.child.Child? && u.child.Child?
    && u.aof == On && u.phase == Cleaning && u.mem == s.mem && u.buf == []
    && Recover(u.disk, u.diskMan, start) == Data(s.child.snapshot, start)
    && (s.fd == NoFd ==> u.fd == NoFd && u.man.incr == [] && u.diskMan == u.man && u.man.base != [])
  }

  lemma OneFile(d: map<File, Content>, m: Manifest, h: History, start: nat)
    requires |m.base| == 1 && m.base[0].file in d && d[m.base[0].file] == Snapshot(h)
    requires m.incr == [] || (|m.incr| == 1 && m.incr[0].file in d && d[m.incr[0].file] == Log([]))
    ensures Recover(d, m, start) == Data(h, start)
  {
    RunItemsNone(h, start);
    hide RunItems;
    if |m.incr| == 1 {
      assert m.incr[..0] == [];
      assert LoadIncr(d, m.incr[..0], h, start) == Data(h, start);
    }
  }

  lemma StaleFiles(s: State, rdb: bool, u: State, start: nat)
    requires Stale(s) && Valid(s.man) && u.diskMan == StaleManifest(s, rdb)
    requires HasFile(u, BaseFile(s.man.baseSeq + 1, rdb), Snapshot(s.child.snapshot))
    requires s.fd != NoFd ==> HasFile(u, IncrFile(s.man.incrSeq + 1), Log([]))
    ensures Recover(u.disk, u.diskMan, start) == Data(s.child.snapshot, start)
    ensures s.fd == NoFd ==> u.diskMan.incr == []
    ensures |u.diskMan.base| > 0
  {
    DoneValid(s.man, rdb, true, s.fd != NoFd);
    assert s.fd == NoFd ==> u.diskMan.incr == [];
    hide Recover, Valid, DoneManifest, StaleManifest;
    OneFile(u.disk, u.diskMan, s.child.snapshot, start);
  }

  /** The child's file and the temporary incr file have got their new names. */
  lemma StaleRenamed(o: State, s: State, rdb: bool, start: nat, safe: bool) returns (u: State)
    requires Stale(s) && Reaches(o, DoStart(s, true), start, safe)
    ensures Reaches(o, u, start, safe) && u.phase == PersistingDone(NewIncr(NewBase(s.man, rdb)))
    ensures u.aof == WaitRewrite && u.mem == s.mem && u.buf == [] && u.child.Child? && u.man == s.man
    ensures u.fd == if s.fd == NoFd then NoFd else Named(IncrFile(s.man.incrSeq + 1))
    ensures HasFile(u, BaseFile(s.man.baseSeq + 1, rdb), Snapshot(s.child.snapshot))
    ensures s.fd != NoFd ==> HasFile(u, IncrFile(s.man.incrSeq + 1), Log([]))
  {
    var e := StaleBaseNamed(o, s, rdb, start, safe);
    hide RunItems, LoadIncr, Reaches, DoStart, NewBase;
    ReachesMore(o, e, RenameIncr(true), start, safe);
    u := DoRenameIncr(e, true);
  }

  lemma StaleBaseNamed(o: State, s: State, rdb: bool, start: nat, safe: bool) returns (e: State)
    requires Stale(s) && Reaches(o, DoStart(s, true), start, safe)
    ensures Reaches(o, e, start, safe) && e.phase == RenamingIncr(NewBase(s.man, rdb))
    ensures NewBase(s.man, rdb).incrSeq == s.man.incrSeq
    ensures e.aof == WaitRewrite && e.mem == s.mem && e.buf == [] && e.child.Child? && e.man == s.man && e.fd == s.fd
    ensures HasFile(e, BaseFile(s.man.baseSeq + 1, rdb), Snapshot(s.child.snapshot))
    ensures TempIncr in e.disk && e.disk[TempIncr] == s.disk[TempIncr]
  {
    hide RunItems, LoadIncr, Reaches, DoStart;
    StaleChildDone(o, s, rdb, start, safe);
    var d := StaleDone(s, rdb);
    ReachesMore(o, d, RenameBase(true), start, safe);
    e := DoRenameBase(d, true);
  }

  /** Where a stale start leads if the child's work is used. */
  lemma StaleStartEnds(o: State, s: State, rdb: bool, start: nat, safe: bool) returns (u: State)
    requires Stale(s) && Valid(s.man) && Reaches(o, DoStart(s, true), start, safe)
    ensures Reaches(o, u, start, safe) && StaleEnd(s, u, start)
  {
    hide RunItems, LoadIncr, LoadBase, Reaches, Valid, Recover, DoStart;
    var v := StaleRenamed(o, s, rdb, start, safe);
    ReachesMore(o, v, PersistDone(Written), start, safe);
    var w := WriteDone(v, Written);
    ReachesMore(o, w, DeleteHistory(false), start, safe);
    u := DoDelete(w, false);
    StaleFiles(s, rdb, u, start);
  }

  /** At that end the guarantee holds exactly if nothing was executed since the fork. */
  lemma StaleEndIff(s: State, u: State, start: nat)
    requires Stale(s) && StaleEnd(s, u, start)
    ensures Safe(u, start) <==> s.mem == s.child.snapshot
  {
    hide Recover;
    RunItemsNone(s.child.snapshot, start);
  }

  /** With no open file the log goes on without a file: what is fed stays in the buffer, and the
      next rewrite takes it into its base although it will also be written behind it. */
  lemma {:induction false} TwiceBegun(o: State, u: State, c: Command, start: nat) returns (v: State)
    requires Reaches(o, u, start, true) && u.aof == On && u.phase == Cleaning && u.buf == [] && u.child.Child?
    requires u.fd == NoFd && u.man.incr == [] && u.man.base != [] && u.diskMan == u.man
    ensures Reaches(o, v, start, true) && v.aof == On && v.phase == Forking(false) && v.child == NoChild
    ensures v.buf == [Run(c, true)] && v.mem == u.mem + [Done(-1, c)]
    ensures v.man == NewIncr(u.man) && v.fd == Named(IncrFile(u.man.incrSeq + 1))
    ensures HasFile(v, IncrFile(u.man.incrSeq + 1), Log([]))
  {
    hide RunItems, LoadIncr, Reaches;
    ReachesMore(o, u, Clean, start, true);
    v := Apply(u, Clean, start);
    ReachesMore(o, v, Feed(-1, c), start, true);
    v := Apply(v, Feed(-1, c), start);
    assert v.buf == [Run(c, true)];
    ReachesMore(o, v, BeginRewrite(1), start, true);
    v := Apply(v, BeginRewrite(1), start);
    ReachesMore(o, v, OpenNew(true), start, true);
    v := Apply(v, OpenNew(true), start);
    ReachesMore(o, v, PersistNew(Written), start, true);
    v := Apply(v, PersistNew(Written), start);
  }

  lemma TwiceEnds(o: State, v: State, c: Command, m: Manifest, rdb: bool, start: nat) returns (w: State)
    requires Reaches(o, v, start, true) && v.aof == On && v.phase == Forking(false) && v.buf == [Run(c, true)]
    requires v.man == NewIncr(m) && m.incr == [] && v.fd == Named(IncrFile(m.incrSeq + 1))
    requires HasFile(v, IncrFile(m.incrSeq + 1), Log([]))
    ensures Reaches(o, w, start, true) && w.aof == On && w.mem == v.mem && w.buf == v.buf
    ensures Recover(w.disk, w.diskMan, start) == Data(v.mem, start)
  {
    hide RunItems, Reaches, Recover;
    var x := TwiceForked(o, v, rdb, start);
    ReachesMore(o, x, RenameBase(true), start, true);
    var y := DoRenameBase(x, true);
    ReachesMore(o, y, PersistDone(Written), start, true);
    w := WriteDone(y, Written);
    var incr := Info(IncrFile(m.incrSeq + 1), m.incrSeq + 1, Incr);
    assert v.man.incr == [incr] && w.diskMan.incr == [incr];
    OneFile(w.disk, w.diskMan, v.mem, start);
  }

  lemma TwiceForked(o: State, v: State, rdb: bool, start: nat) returns (x: State)
    requires Reaches(o, v, start, true) && v.aof == On && v.phase == Forking(false)
    ensures Reaches(o, x, start, true)
    ensures x == v.(phase := RenamingBase(rdb), child := Child(0, v.mem, Succeeded),
                    disk := v.disk[TempRewrite(0) := Snapshot(v.mem)])
  {
    hide RunItems, Reaches, LoadIncr;
    ReachesMore(o, v, Fork(true, 0), start, true);
    var a := DoFork(v, true, 0);
    ReachesMore(o, a, ChildEnds(true), start, true);
    var b := EndChild(a, true);
    ReachesMore(o, b, Handle(rdb), start, true);
    x := Apply(b, Handle(rdb), start);
  }

  lemma RunTwice(w: State, c: Command, start: nat)
    requires w.aof == On && w.buf == [Run(c, true)] && Recover(w.disk, w.diskMan, start) == Data(w.mem, start)
    ensures !Safe(w, start)
  {
    RunItemsExtends(w.mem, start, w.buf);
  }

  /** A start of the log that only schedules a rewrite keeps the guarantee, for everything that
      can happen afterwards, if and only if it is harmless. */
  lemma StartIff(s: State, start: nat)
    requires Inv(s, start) && Resting(s) && s.phase == Idle && s.aof == Off
    ensures AllSafe(DoStart(s, true), start) <==> Harmless(s)
  {
    hide RunItems, LoadIncr, Reaches, Recover, Safe, Apply, Possible, PhaseGood;
    var o := DoStart(s, true);
    if Harmless(s) {
      StartSafe(s, start);
    } else {
      HarmfulStale(s, start);
      ReachesSelf(o, start, true);
      var u := StaleStartEnds(o, s, true, start, true);
      StaleEndIff(s, u, start);
      if s.mem == s.child.snapshot {
        var v := TwiceBegun(o, u, [], start);
        var w := TwiceEnds(o, v, [], u.man, true, start);
        RunTwice(w, [], start);
      }
    }
  }

  lemma StartSafe(s: State, start: nat)
    requires Inv(s, start) && Resting(s) && s.phase == Idle && s.aof == Off && Harmless(s)
    ensures AllSafe(DoStart(s, true), start)
  {
    StartKeeps(s, start, true);
    assert s.buf == [];
    RestingStart(s, true);
    hide Inv, Resting, DoStart, Safe, IsRun;
    var o := DoStart(s, true);
    forall t | Reaches(o, t, start, true) ensures Safe(t, start) {
      var ss, es :| IsRun(ss, es, start, true) && ss[0] == o && ss[|es|] == t;
      RunLength(ss, es, start);
      RunFromKeeps(ss, es, start, |es|, start);
      InvSafe(t, start);
    }
  }

  lemma RunLength(ss: seq<State>, es: seq<Event>, start: nat)
    requires IsRun(ss, es, start, true)
    ensures |ss| == |es| + 1
  {}

  /** Allowed steps lead from the initial state to a harmful start: the log is turned on and off
      again before the rewrite ends, then a rewrite is asked for, then a command is executed. */
  lemma StaleStartReachable(c: Command, start: nat) returns (u: State)
    ensures Reaches(INIT_OFF, u, start, true) && Stale(u) && Valid(u.man)
    ensures u.fd == NoFd && u.mem == [Done(0, c)] && u.child.snapshot == []
  {
    hide RunItems, LoadIncr, Reaches;
    var o := INIT_OFF;
    var v := StaleFileLeft(start);
    ReachesMore(o, v, BeginRewrite(0), start, true);
    var w := Begin(v, 0, false);
    ReachesMore(o, w, OpenNew(true), start, true);
    w := Open(w, true);
    ReachesMore(o, w, Fork(true, 1), start, true);
    w := DoFork(w, true, 1);
    ReachesMore(o, w, Feed(0, c), start, true);
    u := FeedLog(w, 0, c);
    assert Valid(EMPTY);
  }

  lemma StaleFileLeft(start: nat) returns (u: State)
    ensures Reaches(INIT_OFF, u, start, true) && u == INIT_OFF.(disk := u.disk) && TempIncr in u.disk
  {
    hide RunItems, LoadIncr, Reaches;
    var o := INIT_OFF;
    ReachesSelf(o, start, true);
    ReachesMore(o, o, StartAof(false), start, true);
    var v := DoStart(o, false);
    ReachesMore(o, v, OpenNew(true), start, true);
    v := Open(v, true);
    ReachesMore(o, v, Fork(true, 0), start, true);
    v := DoFork(v, true, 0);
    ReachesMore(o, v, StopAof(0), start, true);
    u := DoStop(v, 0);
  }

  lemma ReachesLess(s: State, t: State, start: nat)
    requires Reaches(s, t, start, true)
    ensures Reaches(s, t, start, false)
  {
    hide Apply, Allowed, Possible;
    var ss, es :| IsRun(ss, es, start, true) && ss[0] == s && ss[|es|] == t;
    assert IsRun(ss, es, start, false);
  }

  /** So a run loses a command: the log is on and its buffer is empty, but the disk has nothing
      of the command that was executed. */
  lemma StaleStartLoses(c: Command, start: nat) returns (u: State)
    ensures Reaches(INIT_OFF, u, start, false) && u.aof == On && u.buf == [] && u.mem == [Done(0, c)]
    ensures Recover(u.disk, u.diskMan, start) == Data([], start)
  {
    hide RunItems, LoadIncr, Reaches, Recover, Valid;
    var s := StaleStartReachable(c, start);
    ReachesLess(INIT_OFF, s, start);
    ReachesMore(INIT_OFF, s, StartAof(true), start, false);
    u := StaleStartEnds(INIT_OFF, s, true, start, false);
  }

  // ------------------------------------------------------------------------------
  // A failed directory fsync when a new incr file is announced
  // ------------------------------------------------------------------------------

  /** The manifest on disk then names one more file than the one in memory, but that file is
      empty: nothing is lost at that point. */
  lemma NewSyncHarmless(s: State, start: nat)
    requires Inv(s, start) && s.phase.PersistingNew?
    ensures Safe(WriteNew(s, WrittenButFailed), start)
  {
    hide RunItems, Before, Commands, Valid;
    var t, w := WriteNew(s, WrittenButFailed), WriteNew(s, Written);
    WriteNewKeeps(s, start, Written);
    InvSafe(w, start);
    assert t.disk == w.disk && t.diskMan == w.diskMan && t.mem == w.mem && t.buf == w.buf && t.aof == w.aof;
  }

  /** But a later step can rename another file over it, although the manifest names it. */
  lemma NewSyncOverwrites(c: Command, start: nat) returns (u: State, f: File)
    ensures Reaches(INIT_ON, u, start, false) && Possible(u, RenameIncr(true)) && Live(u.diskMan, f)
    ensures !Kept(u, Apply(u, RenameIncr(true), start), f)
  {
    hide RunItems, LoadIncr, Reaches;
    var v := NewSyncLogged(c, start);
    var o := INIT_ON;
    ReachesMore(o, v, ChildEnds(true), start, false);
    var w := EndChild(v, true);
    ReachesMore(o, w, Handle(true), start, false);
    w := Apply(w, Handle(true), start);
    ReachesMore(o, w, RenameBase(true), start, false);
    u, f := DoRenameBase(w, true), IncrFile(2);
    assert u.diskMan.incr[1].file == f;
  }

  /** The log is turned off and on again, and a command is logged in the temporary file. */
  lemma NewSyncLogged(c: Command, start: nat) returns (u: State)
    ensures Reaches(INIT_ON, u, start, false)
    ensures u.aof == WaitRewrite && u.phase == Idle && u.fd == Named(TempIncr) && u.man.incrSeq == 1
    ensures u.child.Child? && u.child.ended == Running
    ensures HasFile(u, TempIncr, Log([Run(c, true)])) && HasFile(u, IncrFile(2), Log([]))
    ensures |u.diskMan.incr| == 2 && u.diskMan.incr[1].file == IncrFile(2)
  {
    hide RunItems, LoadIncr, Reaches;
    var v := NewSyncFailed(start);
    var o := INIT_ON;
    ReachesMore(o, v, OpenNew(true), start, false);
    var w := Open(v, true);
    ReachesMore(o, w, Fork(true, 0), start, false);
    w := DoFork(w, true, 0);
    ReachesMore(o, w, Feed(-1, c), start, false);
    w := FeedLog(w, -1, c);
    assert w.buf == [Run(c, true)];
    ReachesMore(o, w, Flush(1), start, false);
    u := FlushItems(w, 1);
    assert u.disk[TempIncr].items == [Run(c, true)];
  }

  lemma NewSyncFailed(start: nat) returns (u: State)
    ensures Reaches(INIT_ON, u, start, false)
    ensures u.aof == WaitRewrite && u.phase == Opening(true) && u.buf == [] && u.child == NoChild
    ensures u.man.incrSeq == 1 && |u.diskMan.incr| == 2 && u.diskMan.incr[1].file == IncrFile(2)
    ensures HasFile(u, IncrFile(2), Log([]))
  {
    hide RunItems, LoadIncr, Reaches;
    var v := NewSyncGivenUp(start);
    var o := INIT_ON;
    ReachesMore(o, v, StopAof(0), start, false);
    var w := DoStop(v, 0);
    ReachesMore(o, w, StartAof(false), start, false);
    u := DoStart(w, false);
  }

  lemma NewSyncGivenUp(start: nat) returns (u: State)
    ensures Reaches(INIT_ON, u, start, false)
    ensures u.aof == On && u.phase == Idle && u.fd == Named(IncrFile(1)) && u.buf == [] && u.child == NoChild
    ensures u.man.incrSeq == 1 && |u.diskMan.incr| == 2 && u.diskMan.incr[1].file == IncrFile(2)
    ensures HasFile(u, IncrFile(2), Log([]))
  {
    hide RunItems, LoadIncr, Reaches;
    var o := INIT_ON;
    ReachesSelf(o, start, false);
    ReachesMore(o, o, BeginRewrite(0), start, false);
    var v := Begin(o, 0, false);
    ReachesMore(o, v, OpenNew(true), start, false);
    v := Open(v, true);
    ReachesMore(o, v, PersistNew(WrittenButFailed), start, false);
    u := WriteNew(v, WrittenButFailed);
  }
}
