/** The append-only-file buffer and its flush loop (`aofWrite`, `flushAppendOnlyFile`),
    over a file with a length and a file position of its own.

    The file of a running rewrite is opened without O_APPEND, and `ftruncate` does not move
    the position.  After an undone short write the position is behind the end of the file;
    the next flush that keeps a byte then leaves a hole.  So "file contents + buffer =
    everything fed" holds in append mode under every mix of outcomes, and without it exactly
    until a flush keeps a byte while a short write before it was undone (`Run`). */
module AofFlush {
  import opened ByteStrings
  import opened AofCodec

  /** One `write` call: some bytes taken, interrupted by a signal, or an error. */
  datatype WriteOutcome = Wrote(n: nat) | Interrupted | Error

  datatype Policy = Always | EverySec | No

  /** What the surroundings answer during one flush. */
  datatype Env = Env(now: int, syncInProgress: bool, childActive: bool,
                     writes: seq<WriteOutcome>, truncateOk: bool, fsyncOk: bool)

  /** Whether `flushAppendOnlyFile` came back or ended the process. */
  datatype Result = Returned | Exited

  /** How many of `len` bytes a list of write outcomes takes before the first real error.
      An exhausted list counts as an error. */
  function Taken(len: nat, writes: seq<WriteOutcome>): (n: nat)
    ensures n <= len
    decreases |writes|
  {
    if len == 0 || |writes| == 0 then 0
    else match writes[0]
      case Error => 0
      case Interrupted => Taken(len, writes[1..])
      case Wrote(n) => var m := if n <= len then n else len; m + Taken(len - m, writes[1..])
  }

  /** The bytes the system takes in all, up to the first real error. */
  function Offered(writes: seq<WriteOutcome>): nat {
    if |writes| == 0 then 0
    else match writes[0]
      case Error => 0
      case Interrupted => Offered(writes[1..])
      case Wrote(n) => n + Offered(writes[1..])
  }

  /** A write goes on after interruptions and short writes until all is written or an error comes. */
  lemma {:induction false} TakenIs(len: nat, writes: seq<WriteOutcome>)
    ensures Taken(len, writes) == Min(len, Offered(writes))
    decreases |writes|
  {
    if |writes| > 0 {
      match writes[0]
      case Error =>
      case Interrupted => TakenIs(len, writes[1..]);
      case Wrote(n) => TakenIs(if n <= len then len - n else 0, writes[1..]);
    }
  }

  function Zeros(n: nat): (z: bytes)
    ensures |z| == n && forall i :: 0 <= i < n ==> z[i] == 0
  {
    seq(n, _ => 0)
  }

  /** POSIX `write`: overwrite from `at` on; a gap behind the end is filled with zeros. */
  function WriteAt(f: bytes, at: nat, b: bytes): bytes {
    if |b| == 0 then f
    else if at > |f| then f + Zeros(at - |f|) + b
    else if at + |b| >= |f| then f[..at] + b
    else f[..at] + b + f[at + |b|..]
  }

  lemma WriteAtTwice(f: bytes, at: nat, a: bytes, b: bytes)
    ensures WriteAt(WriteAt(f, at, a), at + |a|, b) == WriteAt(f, at, a + b)
  {
    if |a| == 0 {
      assert a + b == b;
    } else if |b| == 0 {
      assert a + b == a;
    } else if at > |f| {
      assert f + Zeros(at - |f|) + a + b == f + Zeros(at - |f|) + (a + b);
    } else {
      OverwriteTwice(f, at, a, b);
    }
  }

  lemma Parts(p: bytes, a: bytes, r: bytes, k: nat)
    requires k <= |r|
    ensures (p + a + r)[..|p| + |a|] == p + a && (p + a + r)[|p| + |a| + k..] == r[k..]
  {}

  lemma Together(p: bytes, a: bytes, b: bytes, r: bytes)
    ensures p + a + b == p + (a + b) && p + a + b + r == p + (a + b) + r
  {}

  lemma OverwriteTwice(f: bytes, at: nat, a: bytes, b: bytes)
    requires at <= |f| && |a| > 0 && |b| > 0
    ensures WriteAt(WriteAt(f, at, a), at + |a|, b) == WriteAt(f, at, a + b)
  {
    var p := f[..at];
    if at + |a| >= |f| {
      assert (p + a)[..|p + a|] == p + a;
      Together(p, a, b, []);
    } else {
      var r := f[at + |a|..];
      if |b| < |r| {
        Parts(p, a, r, |b|);
        Together(p, a, b, r[|b|..]);
        assert r[|b|..] == f[at + |a + b|..];
      } else {
        Parts(p, a, r, 0);
        Together(p, a, b, []);
      }
    }
  }

  lemma WriteAtNothing(f: bytes, at: nat)
    ensures WriteAt(f, at, []) == f
  {}

  /** Writing behind the last byte appends; writing further out does not. */
  lemma WriteAppends(f: bytes, at: nat, b: bytes)
    requires at >= |f|
    ensures WriteAt(f, at, b) == f + b <==> at == |f| || |b| == 0
    ensures |WriteAt(f, at, b)| == |f| + |b| <==> at == |f| || |b| == 0
  {}

  /** Moving `w` bytes from the front of a buffer to the file keeps their concatenation
      exactly when the write position is the end of the file, or nothing moves. */
  lemma MovedBytes(f: bytes, at: nat, b: bytes, w: nat)
    requires at >= |f| && w <= |b|
    ensures WriteAt(f, at, b[..w]) + b[w..] == f + b <==> at == |f| || w == 0
    ensures |WriteAt(f, at, b[..w])| == |f| + w <==> at == |f| || w == 0
    ensures |WriteAt(f, at, b[..w])| <= at + w && (w > 0 ==> |WriteAt(f, at, b[..w])| == at + w)
  {
    assert b[..w] + b[w..] == b;
    if at == |f| || w == 0 {
      WriteAppends(f, at, b[..w]);
      assert f + b[..w] + b[w..] == f + (b[..w] + b[w..]);
    }
  }

  lemma TruncatedBack(f: bytes, at: nat, b: bytes, size: nat)
    requires at >= |f| >= size
    ensures |WriteAt(f, at, b)| >= size && WriteAt(f, at, b)[..size] == f[..size]
  {}

  /** Whether a flush leaves the buffer for later because a background fsync is running. */
  predicate Delays(policy: Policy, postponedStart: int, force: bool, env: Env) {
    policy == EverySec && !force && env.syncInProgress && (postponedStart == 0 || env.now - postponedStart < 2)
  }

  /** The append-only part of the server: the current incr file, the buffer in front of it
      and the bookkeeping fields.  Fields are named after the server's. */
  class Log {
    const appendMode: bool        // opened with O_APPEND
    var file: bytes               // contents of the current incr file
    var position: nat             // position of aof_fd
    var buf: bytes                // aof_buf
    var lastIncrSize: nat
    var fsyncOffset: nat          // aof_last_incr_fsync_offset
    var currentSize: int
    var lastFsync: int
    var postponedStart: int       // aof_flush_postponed_start
    var lastWriteOk: bool         // aof_last_write_status
    var policy: Policy
    var noFsyncOnRewrite: bool

    /** The recorded size is the length of the file, and no more than that was synced. */
    predicate Counted()
      reads this
    {
      lastIncrSize == |file| && fsyncOffset <= lastIncrSize
    }

    /** No more than the recorded size was synced, no more than the file has is recorded, and the
        next write goes behind the file. */
    predicate Sized()
      reads this
    {
      fsyncOffset <= lastIncrSize <= |file| <= WritePosition()
    }

    /** The next write goes right behind the last byte. */
    predicate Positioned()
      reads this
    {
      appendMode || position == |file|
    }

    /** Where the next write goes. */
    function WritePosition(): nat
      reads this
    {
      if appendMode then |file| else position
    }

    constructor (append: bool, contents: bytes, policy: Policy)
      ensures appendMode == append && file == contents && buf == [] && this.policy == policy && postponedStart == 0
      ensures Counted() && Positioned() && position == |contents| && fsyncOffset == currentSize == |contents|
      ensures lastFsync == 0 && lastWriteOk && !noFsyncOnRewrite
    {
      appendMode, file, position, buf := append, contents, |contents|, [];
      lastIncrSize, fsyncOffset, currentSize := |contents|, |contents|, |contents|;
      lastFsync, postponedStart, lastWriteOk := 0, 0, true;
      this.policy, noFsyncOnRewrite := policy, false;
    }

    /** The tail of `feedAppendOnlyFile`. */
    method Feed(b: bytes)
      modifies this`buf
      ensures buf == old(buf) + b
    {
      buf := buf + b;
    }

    /** `write(2)` on the append-only file. */
    method Write(b: bytes)
      modifies this`file, this`position
      ensures file == WriteAt(old(file), old(WritePosition()), b)
      ensures |b| > 0 ==> position == old(WritePosition()) + |b|
      ensures |b| == 0 ==> position == old(position)
    {
      if |b| > 0 {
        var at := WritePosition();
        file := WriteAt(file, at, b);
        position := at + |b|;
      }
    }

    /** `aofWrite`: retry short and interrupted writes until done or a real error. */
    method WriteAll(data: bytes, writes: seq<WriteOutcome>) returns (nwritten: int)
      modifies this`file, this`position
      ensures nwritten == if Taken(|data|, writes) == 0 && |data| > 0 then -1 else Taken(|data|, writes)
      ensures var done := data[..Taken(|data|, writes)];
              && file == WriteAt(old(file), old(WritePosition()), done)
              && position == if done == [] then old(position) else old(WritePosition()) + |done|
    {
      hide WriteAt;
      ghost var was, at, from := file, WritePosition(), position;
      WriteAtNothing(was, at);
      assert data[..0] == [];
      var total, k := 0, 0;
      while total < |data|
        invariant 0 <= total <= |data| && 0 <= k <= |writes|
        invariant Taken(|data|, writes) == total + Taken(|data| - total, writes[k..])
        invariant Advanced(was, at, from, data[..total])
        decreases |writes| - k
      {
        if k == |writes| {
          return if total > 0 then total else -1;
        }
        var outcome := writes[k];
        assert writes[k..][1..] == writes[k + 1..];
        k := k + 1;
        match outcome {
          case Interrupted =>
          case Error =>
            return if total > 0 then total else -1;
          case Wrote(n) =>
            var m := if n <= |data| - total then n else |data| - total;
            assert data[..total] + data[total..total + m] == data[..total + m];
            WriteMore(data[total..total + m], was, at, from, data[..total]);
            total := total + m;
        }
      }
      assert data[..total] == data;
      nwritten := total;
    }

    /** `done` has been written since the file was `was`, with the next write due at `at`. */
    ghost predicate Advanced(was: bytes, at: nat, from: nat, done: bytes)
      reads this
    {
      && file == WriteAt(was, at, done) && position == (if done == [] then from else at + |done|)
      && WritePosition() == at + |done|
    }

    method WriteMore(b: bytes, ghost was: bytes, ghost at: nat, ghost from: nat, ghost done: bytes)
      requires Advanced(was, at, from, done)
      modifies this`file, this`position
      ensures Advanced(was, at, from, done + b)
    {
      WriteAtTwice(was, at, done, b);
      Write(b);
      if |b| == 0 {
        assert done + b == done;
      }
    }

    /** The `try_fsync` label: with `always` the file is synced here, or the process ends; with
        `everysec` a background fsync is started, once a second, unless one is still running. */
    method TryFsync(env: Env, syncInProgress: bool) returns (r: Result)
      requires fsyncOffset <= lastIncrSize
      modifies this`fsyncOffset, this`lastFsync
      ensures var due := !(noFsyncOnRewrite && env.childActive);
              var second := policy == EverySec && env.now > old(lastFsync);
              && (r == Exited <==> due && policy == Always && !env.fsyncOk)
              && fsyncOffset == (if due && ((policy == Always && env.fsyncOk) || (second && !syncInProgress))
                                 then lastIncrSize else old(fsyncOffset))
              && lastFsync == (if due && ((policy == Always && env.fsyncOk) || second) then env.now else old(lastFsync))
    {
      if noFsyncOnRewrite && env.childActive {
        return Returned;
      }
      if policy == Always {
        if !env.fsyncOk {
          return Exited;
        }
        fsyncOffset := lastIncrSize;
        lastFsync := env.now;
      } else if policy == EverySec && env.now > lastFsync {
        if !syncInProgress {
          fsyncOffset := lastIncrSize;
        }
        lastFsync := env.now;
      }
      r := Returned;
    }

    /** A flush of an empty buffer may still have bytes to sync. */
    method SyncIdle(env: Env) returns (r: Result)
      requires fsyncOffset <= lastIncrSize
      modifies this`fsyncOffset, this`lastFsync
      ensures var due := !(noFsyncOnRewrite && env.childActive) && old(fsyncOffset) != lastIncrSize;
              var second := policy == EverySec && env.now > old(lastFsync) && !env.syncInProgress;
              && (r == Exited <==> due && policy == Always && !env.fsyncOk)
              && fsyncOffset == (if due && ((policy == Always && env.fsyncOk) || second)
                                 then lastIncrSize else old(fsyncOffset))
    {
      if policy == EverySec && fsyncOffset != lastIncrSize && env.now > lastFsync && !env.syncInProgress {
        r := TryFsync(env, false);
      } else if policy == Always && fsyncOffset != lastIncrSize {
        r := TryFsync(env, false);
      } else {
        r := Returned;
      }
    }

    /** The write of the whole buffer and the handling of its errors.
        `exit` says that the process ends here. */
    method WriteBuffer(env: Env) returns (exit: bool, written: nat, undone: bool)
      requires Sized() && |buf| > 0
      modifies this`file, this`position, this`buf, this`lastIncrSize, this`currentSize,
               this`postponedStart, this`lastWriteOk
      ensures var t := Taken(|old(buf)|, env.writes);
              && undone == (0 < t < |old(buf)| && env.truncateOk)
              && exit == (policy == Always && t < |old(buf)|)
              && lastWriteOk == (if exit then old(lastWriteOk) else t == |old(buf)|)
              && (!exit ==> written == (if undone then 0 else t))
              && position == (if t == 0 then old(position) else old(WritePosition()) + t)
      ensures !exit ==>
                && buf == old(buf)[written..]
                && file == (if undone then old(file)[..old(lastIncrSize)]
                            else WriteAt(old(file), old(WritePosition()), old(buf)[..written]))
                && lastIncrSize == old(lastIncrSize) + written && currentSize == old(currentSize) + written
      ensures postponedStart == 0
    {
      hide WriteAt, Taken;
      written, undone, exit := 0, false, false;
      var nwritten := WriteAll(buf, env.writes);
      postponedStart := 0;
      if nwritten == |buf| {
        lastWriteOk := true;
        assert buf[..nwritten] == buf && buf[nwritten..] == [];
        buf := [];
      } else {
        if nwritten != -1 && env.truncateOk {
          TruncatedBack(old(file), old(WritePosition()), buf[..nwritten], lastIncrSize);
          file := file[..lastIncrSize];
          undone := true;
          nwritten := -1;
        }
        WriteNothing(old(file), old(WritePosition()), buf);
        if policy == Always {
          return true, 0, undone;
        }
        lastWriteOk := false;
        if nwritten > 0 {
          buf := buf[nwritten..];
        }
      }
      if nwritten > 0 {
        currentSize := currentSize + nwritten;
        lastIncrSize := lastIncrSize + nwritten;
        written := nwritten;
      }
    }

    /** How many bytes a flush gets the system to take. */
    function FlushTakes(force: bool, env: Env): (t: nat)
      reads this
      ensures t <= |buf|
    {
      if |buf| == 0 || Delays(policy, postponedStart, force, env) then 0 else Taken(|buf|, env.writes)
    }

    /** When the wait for a background fsync began, after a flush. */
    function FlushWaits(force: bool, env: Env): int
      reads this
    {
      if |buf| == 0 then postponedStart
      else if !Delays(policy, postponedStart, force, env) then 0
      else if postponedStart == 0 then env.now else postponedStart
    }

    /** `flushAppendOnlyFile`.  `written` bytes left the buffer for good; `undone` says that
        a short write was cut off the file again. */
    method Flush(force: bool, env: Env) returns (r: Result, written: nat, undone: bool)
      requires Sized()
      modifies this`file, this`position, this`buf, this`lastIncrSize, this`fsyncOffset, this`currentSize,
               this`lastFsync, this`postponedStart, this`lastWriteOk
      // what happens, for every answer of the system
      ensures undone == (0 < old(FlushTakes(force, env)) < |old(buf)| && env.truncateOk)
      ensures r == Returned ==>
                && written == (if undone then 0 else old(FlushTakes(force, env))) && buf == old(buf)[written..]
                && file == (if undone then old(file)[..old(lastIncrSize)]
                            else WriteAt(old(file), old(WritePosition()), old(buf)[..written]))
                && lastIncrSize == old(lastIncrSize) + written && currentSize == old(currentSize) + written
                && Sized() && postponedStart == old(FlushWaits(force, env))
      ensures var t := old(FlushTakes(force, env));
              position == if t == 0 then old(position) else old(WritePosition()) + t
      // nothing lost, nothing twice, exactly if the position was right or no byte was kept
      ensures r == Returned && old(Counted()) ==>
                (file + buf == old(file + buf) <==> old(Positioned()) || written == 0)
      ensures r == Returned && old(Counted()) ==> (Counted() <==> old(Positioned()) || written == 0)
      // a kept byte puts the position right, an undone short write puts it wrong without O_APPEND
      ensures r == Returned && old(Counted()) ==>
                (Positioned() <==> appendMode || written > 0 || (old(Positioned()) && !undone))
      // only with everysec, unforced, while a background fsync runs, is the buffer left for later, and
      // for less than two seconds
      ensures var later := policy == EverySec && !force && env.syncInProgress &&
                           (old(postponedStart) == 0 || env.now - old(postponedStart) < 2);
              && (later && |old(buf)| > 0 ==>
                    && r == Returned && buf == old(buf) && file == old(file) && fsyncOffset == old(fsyncOffset)
                    && postponedStart == if old(postponedStart) == 0 then env.now else old(postponedStart))
              && (!later ==> old(FlushTakes(force, env)) == Taken(|old(buf)|, env.writes))
              && (!later && |old(buf)| > 0 && r == Returned ==> postponedStart == 0)
              && (r == Returned ==>
                    lastWriteOk == if later || |old(buf)| == 0 then old(lastWriteOk)
                                   else Taken(|old(buf)|, env.writes) == |old(buf)|)
      // appendfsync always: returning means written and synced, and the process ends exactly if one fails
      ensures r == Returned && policy == Always ==>
                buf == [] && ((noFsyncOnRewrite && env.childActive) || fsyncOffset == lastIncrSize)
      ensures r == Exited <==>
              && policy == Always
              && (|| Taken(|old(buf)|, env.writes) < |old(buf)|
                  || (&& !(noFsyncOnRewrite && env.childActive) && !env.fsyncOk
                      && (|old(buf)| > 0 || old(fsyncOffset) != old(lastIncrSize))))
      // appendfsync everysec: a second after the last fsync everything that is written gets synced
      ensures r == Returned && policy == EverySec && !(noFsyncOnRewrite && env.childActive) &&
              env.now > old(lastFsync) && !env.syncInProgress && Taken(|old(buf)|, env.writes) == |old(buf)| ==>
                buf == [] && fsyncOffset == lastIncrSize
    {
      hide WriteAt, Taken;
      written, undone := 0, false;
      MovedBytes(file, WritePosition(), buf, 0);
      WriteNothing(file, WritePosition(), buf);
      if |buf| == 0 {
        r := SyncIdle(env);
        return;
      }
      var syncInProgress := policy == EverySec && env.syncInProgress;
      if policy == EverySec && !force && syncInProgress {
        if postponedStart == 0 {
          postponedStart := env.now;
          return Returned, 0, false;
        } else if env.now - postponedStart < 2 {
          return Returned, 0, false;
        }
      }
      r, written, undone := WriteOut(env, syncInProgress);
    }

    /** The part of a flush that writes: the buffer, and then the fsync. */
    method WriteOut(env: Env, syncInProgress: bool) returns (r: Result, written: nat, undone: bool)
      requires Sized() && |buf| > 0 && (policy == EverySec ==> syncInProgress == env.syncInProgress)
      modifies this`file, this`position, this`buf, this`lastIncrSize, this`fsyncOffset, this`currentSize,
               this`lastFsync, this`postponedStart, this`lastWriteOk
      ensures undone == (0 < Taken(|old(buf)|, env.writes) < |old(buf)| && env.truncateOk)
      ensures r == Returned ==>
                && written == (if undone then 0 else Taken(|old(buf)|, env.writes)) && buf == old(buf)[written..]
                && file == (if undone then old(file)[..old(lastIncrSize)]
                            else WriteAt(old(file), old(WritePosition()), old(buf)[..written]))
                && lastIncrSize == old(lastIncrSize) + written && currentSize == old(currentSize) + written
                && Sized() && postponedStart == 0 && lastWriteOk == (Taken(|old(buf)|, env.writes) == |old(buf)|)
      ensures var t := Taken(|old(buf)|, env.writes);
              position == if t == 0 then old(position) else old(WritePosition()) + t
      ensures r == Returned && old(Counted()) ==>
                && (file + buf == old(file + buf) <==> old(Positioned()) || written == 0)
                && (Counted() <==> old(Positioned()) || written == 0)
                && (Positioned() <==> appendMode || written > 0 || (old(Positioned()) && !undone))
      ensures var due := !(noFsyncOnRewrite && env.childActive);
              && (r == Exited <==>
                  policy == Always && (Taken(|old(buf)|, env.writes) < |old(buf)| || (due && !env.fsyncOk)))
              && (r == Returned && policy == Always ==> buf == [] && (due ==> fsyncOffset == lastIncrSize))
              && var second := policy == EverySec && env.now > old(lastFsync) && !env.syncInProgress;
                 r == Returned && due && second && Taken(|old(buf)|, env.writes) == |old(buf)| ==>
                   buf == [] && fsyncOffset == lastIncrSize
    {
      hide WriteAt, Taken;
      MovedBytes(file, WritePosition(), buf, 0);
      WriteNothing(file, WritePosition(), buf);
      var exit;
      exit, written, undone := WriteBuffer(env);
      if exit {
        return Exited, written, undone;
      }
      MovedBytes(old(file), old(WritePosition()), old(buf), written);
      assert old(Counted()) ==> old(file)[..old(lastIncrSize)] == old(file);
      if !lastWriteOk {
        return Returned, written, undone;
      }
      r := TryFsync(env, syncInProgress);
    }

    /** What a run needs to know of a flush. */
    method FlushStep(force: bool, env: Env) returns (r: Result, written: nat, undone: bool)
      requires Sized()
      modifies this`file, this`position, this`buf, this`lastIncrSize, this`fsyncOffset, this`currentSize,
               this`lastFsync, this`postponedStart, this`lastWriteOk
      ensures undone == (0 < old(FlushTakes(force, env)) < |old(buf)| && env.truncateOk)
      ensures r == Returned ==>
                && written == (if undone then 0 else old(FlushTakes(force, env))) && |buf| == |old(buf)| - written
                && Sized() && postponedStart == old(FlushWaits(force, env))
      ensures r == Returned && old(Counted()) ==>
                && (file + buf == old(file + buf) <==> old(Positioned()) || written == 0)
                && (Counted() <==> old(Positioned()) || written == 0)
                && (Positioned() <==> appendMode || written > 0 || (old(Positioned()) && !undone))
      ensures r == Exited ==> policy == Always
    {
      hide WriteAt, Taken, FlushTakes, FlushWaits, Counted, Positioned, WritePosition;
      r, written, undone := Flush(force, env);
    }
  }

  lemma WriteNothing(f: bytes, at: nat, b: bytes)
    ensures WriteAt(f, at, b[..0]) == f
  {}

  // ------------------------------------------------------------------------------
  // Whole runs between two file switches
  // ------------------------------------------------------------------------------

  datatype Event = Fed(data: bytes) | Flushed(force: bool, env: Env)

  function FedBytes(events: seq<Event>): bytes {
    if |events| == 0 then []
    else
      var last := events[|events| - 1];
      FedBytes(events[..|events| - 1]) + if last.Fed? then last.data else []
  }

  /** What the answers of the system alone decide: the length of the buffer, the time since
      when a flush is postponed, whether the last short write was undone with no byte kept since,
      and whether a byte was ever kept in such a state. */
  datatype Track = Track(len: nat, postponed: int, stale: bool, hole: bool)

  function Follow(policy: Policy, tr: Track, e: Event): Track {
    match e
    case Fed(data) => tr.(len := tr.len + |data|)
    case Flushed(force, env) =>
      if tr.len == 0 then tr
      else if Delays(policy, tr.postponed, force, env) then
        tr.(postponed := if tr.postponed == 0 then env.now else tr.postponed)
      else
        var t := Taken(tr.len, env.writes);
        if 0 < t < tr.len && env.truncateOk then tr.(postponed := 0, stale := true)
        else Track(tr.len - t, 0, tr.stale && t == 0, tr.hole || (tr.stale && t > 0))
  }

  function FollowAll(policy: Policy, tr: Track, events: seq<Event>): Track {
    if |events| == 0 then tr
    else Follow(policy, FollowAll(policy, tr, events[..|events| - 1]), events[|events| - 1])
  }

  /** What can be seen of a log between two events. */
  datatype Point = Point(file: bytes, buf: bytes, size: nat, synced: nat)

  /** Everything fed is in the file or still in the buffer, once and in order. */
  predicate Intact(p: Point, fed: bytes) {
    p.file + p.buf == fed && p.size == |p.file| && p.synced <= p.size
  }

  /** The points of a run that started with `start`, after each of its events. */
  predicate AllIntact(points: seq<Point>, start: bytes, events: seq<Event>)
    requires |points| <= |events|
  {
    forall i :: 0 <= i < |points| ==> Intact(points[i], start + FedBytes(events[..i + 1]))
  }

  lemma IntactNext(points: seq<Point>, start: bytes, events: seq<Event>, p: Point)
    requires |points| < |events|
    ensures AllIntact(points + [p], start, events) <==>
            AllIntact(points, start, events) && Intact(p, start + FedBytes(events[..|points| + 1]))
  {
    var more := points + [p];
    hide Intact;
    if AllIntact(more, start, events) {
      forall i | 0 <= i < |points| ensures Intact(points[i], start + FedBytes(events[..i + 1])) {
        assert more[i] == points[i];
      }
      assert more[|points|] == p;
    }
  }

  /** Feeding keeps both sides. */
  lemma FedNext(start: bytes, events: seq<Event>, i: nat)
    requires i < |events|
    ensures start + FedBytes(events[..i + 1]) ==
            start + FedBytes(events[..i]) + if events[i].Fed? then events[i].data else []
  {
    assert events[..i + 1][..i] == events[..i];
  }

  lemma FollowNext(policy: Policy, tr: Track, events: seq<Event>, i: nat)
    requires i < |events|
    ensures FollowAll(policy, tr, events[..i + 1]) == Follow(policy, FollowAll(policy, tr, events[..i]), events[i])
  {
    assert events[..i + 1][..i] == events[..i];
  }

  /** One event of a run. */
  method Happen(log: Log, e: Event, ghost tr: Track, ghost fed: bytes) returns (exited: bool)
    requires log.Sized() && tr.len == |log.buf| && tr.postponed == log.postponedStart
    requires log.appendMode || !tr.hole ==>
               log.Counted() && (log.Positioned() <==> log.appendMode || !tr.stale) && log.file + log.buf == fed
    modifies log
    ensures log.policy == old(log.policy) && (exited ==> log.policy == Always)
    ensures !exited ==>
              var tr' := Follow(log.policy, tr, e);
              var fed' := fed + if e.Fed? then e.data else [];
              && log.Sized() && tr'.len == |log.buf| && tr'.postponed == log.postponedStart
              && (log.appendMode || !tr'.hole ==>
                    && log.Counted() && (log.Positioned() <==> log.appendMode || !tr'.stale)
                    && log.file + log.buf == fed')
              && (!log.appendMode && !tr.hole && tr'.hole ==> !log.Counted())
  {
    hide Taken, WriteAt;
    exited := false;
    match e {
      case Fed(data) =>
        assert log.file + (log.buf + data) == log.file + log.buf + data;
        log.Feed(data);
      case Flushed(force, env) =>
        assert fed + [] == fed;
        var r, written, cut := log.FlushStep(force, env);
        exited := r == Exited;
    }
  }

  /** Any sequence of feeds and flushes, to its end or to the end of the process: file and buffer
      together are what was fed, and the recorded size is that of the file, at every point of the
      run if and only if the file is in append mode or no byte was kept after an undone short
      write. */
  method Run(log: Log, events: seq<Event>) returns (done: nat, points: seq<Point>)
    requires log.Counted() && log.Positioned()
    modifies log
    ensures done == |points| <= |events| && (done < |events| ==> log.policy == Always)
    ensures done == |events| > 0 ==> points[done - 1] == Point(log.file, log.buf, log.lastIncrSize, log.fsyncOffset)
    ensures AllIntact(points, old(log.file + log.buf), events) <==>
            log.appendMode ||
            !FollowAll(log.policy, Track(|old(log.buf)|, old(log.postponedStart), false, false), events[..done]).hole
  {
    hide Taken, WriteAt, Follow, AllIntact, FedBytes;
    done, points := 0, [];
    ghost var start, init := log.file + log.buf, Track(|log.buf|, log.postponedStart, false, false);
    ghost var tr := init;
    RunStart(log.policy, init, start, events);
    while done < |events|
      invariant done == |points| <= |events| && log.policy == old(log.policy)
      invariant done > 0 ==> points[done - 1] == Point(log.file, log.buf, log.lastIncrSize, log.fsyncOffset)
      invariant tr == FollowAll(log.policy, init, events[..done])
      invariant log.Sized() && tr.len == |log.buf| && tr.postponed == log.postponedStart
      invariant log.appendMode || !tr.hole ==>
                  && log.Counted() && (log.Positioned() <==> log.appendMode || !tr.stale)
                  && log.file + log.buf == start + FedBytes(events[..done])
      invariant AllIntact(points, start, events) <==> log.appendMode || !tr.hole
    {
      FedNext(start, events, done);
      FollowNext(log.policy, init, events, done);
      HoleStays(log.policy, tr, events[done]);
      var exited := Happen(log, events[done], tr, start + FedBytes(events[..done]));
      if exited {
        return;
      }
      tr := Follow(log.policy, tr, events[done]);
      var p := Point(log.file, log.buf, log.lastIncrSize, log.fsyncOffset);
      IntactNext(points, start, events, p);
      points := points + [p];
      done := done + 1;
    }
  }

  lemma HoleStays(policy: Policy, tr: Track, e: Event)
    ensures tr.hole ==> Follow(policy, tr, e).hole
  {
    hide Taken;
  }

  lemma RunStart(policy: Policy, init: Track, start: bytes, events: seq<Event>)
    ensures FollowAll(policy, init, events[..0]) == init && start + FedBytes(events[..0]) == start
    ensures AllIntact([], start, events)
  {}

  /** The guarantee fails without O_APPEND: five bytes are fed, two are written and cut off
      again, then all five are written, behind two bytes of zeros the size does not count. */
  method HoleWithoutAppend() returns (file: bytes, size: nat)
    ensures file == [0, 0, 1, 2, 3, 4, 5] && size == 5
  {
    var log := new Log(false, [], EverySec);
    log.Feed([1, 2, 3, 4, 5]);
    var calm := Env(1, false, false, [Wrote(2), Error], true, true);
    assert Taken(5, calm.writes) == 2 + Taken(3, calm.writes[1..]);
    var r, written, undone := log.Flush(true, calm);
    assert log.file == [] && log.buf == [1, 2, 3, 4, 5] && log.position == 2;
    r, written, undone := log.Flush(true, calm.(writes := [Wrote(5)]));
    file, size := log.file, log.lastIncrSize;
  }
}
