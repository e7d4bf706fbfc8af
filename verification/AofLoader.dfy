/** Loading one append-only file (`loadSingleAppendOnlyFile`): which commands run, where
    the file is cut after an unexpected end, and what happens to an unfinished MULTI. */
module AofLoader {
  import opened ByteStrings
  import opened AofCodec

  /** What the command table says about a command: nothing, MULTI, EXEC or anything else. */
  datatype Kind = Unknown | Multi | Exec | Plain

  type Table = Command -> Kind

  /** The fake client: in a transaction or not, what it queued, what has been run. */
  datatype Client = Client(multi: bool, queued: seq<Command>, executed: seq<Command>)

  const NEW_CLIENT := Client(false, [], [])

  /** Inside MULTI everything but EXEC is queued; EXEC runs the queue. */
  function Process(c: Client, cmd: Command, kind: Kind): Client {
    if c.multi && kind != Exec then c.(queued := c.queued + [cmd])
    else match kind
      case Multi => c.(multi := true)
      case Exec => if c.multi then Client(false, [], c.executed + c.queued) else c
      case Plain => c.(executed := c.executed + [cmd])
      case Unknown => c
  }

  function RunAll(cmds: seq<Command>, table: Table): Client {
    if |cmds| == 0 then NEW_CLIENT
    else
      var last := cmds[|cmds| - 1];
      Process(RunAll(cmds[..|cmds| - 1], table), last, table(last))
  }

  datatype Status = Ok | Empty | Truncated | Failed | Aborted

  datatype Outcome = Outcome(status: Status, client: Client, validUpTo: nat)

  /** `aof-load-truncated`, and whether cutting the file succeeds. */
  datatype Options = Options(loadTruncated: bool, truncateWorks: bool)

  /** The `uxeof` label. */
  function UnexpectedEnd(o: Options): Status {
    if o.loadTruncated && o.truncateWorks then Truncated else Failed
  }

  /** The command loop from `pos` on. */
  function Load(data: bytes, pos: nat, table: Table, o: Options, c: Client, upTo: nat, beforeMulti: nat): Outcome
    requires pos <= |data|
    decreases |data| - pos
  {
    match ReadCommand(data, pos)
    case Done => if c.multi then Outcome(UnexpectedEnd(o), c, beforeMulti) else Outcome(Ok, c, upTo)
    case Annotation(next) => Load(data, next, table, o, c, upTo, beforeMulti)
    case Short => Outcome(UnexpectedEnd(o), c, upTo)
    case Broken => Outcome(Failed, c, upTo)
    case Malformed => Outcome(Failed, c, upTo)
    case NoMemory => Outcome(Aborted, c, upTo)
    case Got(cmd, next) =>
      var kind := table(cmd);
      if kind == Unknown then Outcome(Failed, c, upTo)
      else
        Load(data, next, table, o, Process(c, cmd, kind), if o.loadTruncated then next else upTo,
             if kind == Multi then upTo else beforeMulti)
  }

  function LoadFile(data: bytes, table: Table, o: Options): Outcome {
    if |data| == 0 then Outcome(Empty, NEW_CLIENT, 0) else Load(data, 0, table, o, NEW_CLIENT, 0, 0)
  }

  /** `loadSingleAppendOnlyFile` on a file without RDB preamble; such a preamble is recognised by its
      first five bytes, `REDIS`, and read by other code. */
  method LoadSingleFile(data: bytes, table: Table, o: Options) returns (r: Outcome)
    requires |data| < 5 || data[..5] != [82, 69, 68, 73, 83]
    ensures r == LoadFile(data, table, o)
    ensures r.status == Empty <==> |data| == 0
    ensures |data| == 0 ==> r.client == Client(false, [], []) && r.validUpTo == 0
  {
    if |data| == 0 {
      return Outcome(Empty, NEW_CLIENT, 0);
    }
    var pos, validUpTo, validBeforeMulti: nat := 0, 0, 0;
    var c := NEW_CLIENT;
    while true
      invariant pos <= |data|
      invariant |data| > 0 && Load(data, pos, table, o, c, validUpTo, validBeforeMulti) == LoadFile(data, table, o)
      decreases |data| - pos
    {
      hide ReadCommand;
      var item := NextCommand(data, pos);
      match item {
        case Done =>
          if c.multi {
            return Outcome(UnexpectedEnd(o), c, validBeforeMulti);
          }
          return Outcome(Ok, c, validUpTo);
        case Annotation(next) =>
          pos := next;
        case Short =>
          return Outcome(UnexpectedEnd(o), c, validUpTo);
        case Broken =>
          return Outcome(Failed, c, validUpTo);
        case Malformed =>
          return Outcome(Failed, c, validUpTo);
        case NoMemory =>
          return Outcome(Aborted, c, validUpTo);
        case Got(cmd, next) =>
          var kind := table(cmd);
          if kind == Unknown {
            return Outcome(Failed, c, validUpTo);
          }
          if kind == Multi {
            validBeforeMulti := validUpTo;
          }
          c := Process(c, cmd, kind);
          pos := next;
          if o.loadTruncated {
            validUpTo := pos;
          }
      }
    }
  }

  // ------------------------------------------------------------------------------
  // Every prefix of a written log
  // ------------------------------------------------------------------------------

  /** How many of the commands are wholly inside the first `n` bytes of the log. */
  function Whole(cmds: seq<Command>, n: nat): (k: nat)
    ensures k <= |cmds|
    ensures |EncodeAll(cmds[..k])| <= n
    ensures k < |cmds| ==> n < |EncodeAll(cmds[..k + 1])|
  {
    if |EncodeAll(cmds)| <= n then
      assert cmds[..|cmds|] == cmds;
      |cmds|
    else
      var m := |cmds| - 1;
      var k := Whole(cmds[..m], n);
      assert cmds[..m][..k] == cmds[..k];
      assert k < m ==> cmds[..m][..k + 1] == cmds[..k + 1];
      assert k == m ==> cmds[..k + 1] == cmds;
      k
  }

  predicate Known(cmds: seq<Command>, table: Table) {
    forall i :: 0 <= i < |cmds| ==> Writable(cmds[i]) && table(cmds[i]) != Unknown
  }

  lemma EncodeNext(cmds: seq<Command>, i: nat)
    requires i < |cmds|
    ensures EncodeAll(cmds[..i + 1]) == EncodeAll(cmds[..i]) + Encode(cmds[i])
  {
    hide Encode;
    assert cmds[..i + 1][..i] == cmds[..i];
  }

  lemma EncodeSplit(cmds: seq<Command>, i: nat)
    requires i < |cmds|
    ensures EncodeAll(cmds) == EncodeAll(cmds[..i]) + Encode(cmds[i]) + EncodeAll(cmds[i + 1..])
  {
    hide Encode, EncodeAll;
    Rejoin(cmds, i + 1);
    EncodeNext(cmds, i);
    EncodeAllAppend(cmds[..i + 1], cmds[i + 1..]);
  }

  lemma Rejoin(cmds: seq<Command>, k: nat)
    requires k <= |cmds|
    ensures cmds[..k] + cmds[k..] == cmds
  {}

  /** One more command of the log at byte `at`: wholly there, cut, or absent. */
  lemma ReadLogged(cmds: seq<Command>, n: nat, i: nat, data: bytes)
    requires forall j :: 0 <= j < |cmds| ==> Writable(cmds[j])
    requires n <= |EncodeAll(cmds)| && data == EncodeAll(cmds)[..n]
    requires i < |cmds| && |EncodeAll(cmds[..i])| <= n
    ensures var at, end := |EncodeAll(cmds[..i])|, |EncodeAll(cmds[..i + 1])|;
            ReadCommand(data, at) == if end <= n then Got(cmds[i], end) else if at == n then Done else Short
    ensures |EncodeAll(cmds[..i])| < |EncodeAll(cmds[..i + 1])|
  {
    hide EncodeAll, ReadCommand;
    var a, e, z := EncodeAll(cmds[..i]), Encode(cmds[i]), EncodeAll(cmds[i + 1..]);
    EncodeNext(cmds, i);
    EncodeSplit(cmds, i);
    assert Continues(data, 0, a + e + z);
    ContinuesPart(data, 0, a, e, z);
    if |a| < n {
      ReadWritten(data, |a|, cmds[i]);
    } else {
      ReadEnd(data);
    }
  }

  lemma ReadEnd(data: bytes)
    ensures ReadCommand(data, |data|) == Done
  {}

  /** The place of the last MULTI among some commands. */
  function LastMulti(cmds: seq<Command>, table: Table): nat {
    if |cmds| == 0 then 0
    else if table(cmds[|cmds| - 1]) == Multi then |cmds| - 1
    else LastMulti(cmds[..|cmds| - 1], table)
  }

  /** A log followed by anything: the loop comes behind the log with all its commands processed,
      and knows where the last command and the last MULTI ended. */
  lemma {:induction false} LoadThrough(cmds: seq<Command>, rest: bytes, table: Table, o: Options)
    returns (upTo: nat, beforeMulti: nat)
    requires Known(cmds, table)
    ensures var data := EncodeAll(cmds) + rest;
            Load(data, 0, table, o, NEW_CLIENT, 0, 0) ==
            Load(data, |EncodeAll(cmds)|, table, o, RunAll(cmds, table), upTo, beforeMulti)
    ensures upTo == if o.loadTruncated then |EncodeAll(cmds)| else 0
    ensures o.loadTruncated && RunAll(cmds, table).multi ==> LastMulti(cmds, table) < |cmds|
    ensures o.loadTruncated && RunAll(cmds, table).multi ==>
              beforeMulti == |EncodeAll(cmds[..LastMulti(cmds, table)])|
  {
    hide Encode, ReadCommand, EncodeAll, Load, Process;
    if |cmds| == 0 {
      upTo, beforeMulti := 0, 0;
      EncodeNothing();
    } else {
      var m := |cmds| - 1;
      var front, last := cmds[..m], cmds[m];
      EncodeNext(cmds, m);
      assert cmds[..m + 1] == cmds;
      var first := EncodeAll(front);
      assert first + Encode(last) + rest == first + (Encode(last) + rest);
      var u, v := LoadThrough(front, Encode(last) + rest, table, o);
      ReadThere(first, last, rest);
      LoadOne(first + (Encode(last) + rest), |first|, table, o, RunAll(front, table), u, v);
      upTo, beforeMulti := if o.loadTruncated then |EncodeAll(cmds)| else u, if table(last) == Multi then u else v;
      MultiPlace(cmds, table);
    }
  }

  lemma MultiPlace(cmds: seq<Command>, table: Table)
    requires |cmds| > 0
    ensures var m := |cmds| - 1; var front, k := cmds[..m], LastMulti(cmds, table);
            && (RunAll(cmds, table).multi ==> table(cmds[m]) == Multi || RunAll(front, table).multi)
            && k == (if table(cmds[m]) == Multi then m else LastMulti(front, table))
            && (k <= m ==> front[..k] == cmds[..k])
  {}

  lemma ReadThere(before: bytes, c: Command, rest: bytes)
    requires Writable(c)
    ensures ReadCommand(before + (Encode(c) + rest), |before|) == Got(c, |before + Encode(c)|) && |Encode(c)| > 0
  {
    hide ReadCommand, Bulks, Decimal;
    var data := before + (Encode(c) + rest);
    assert Continues(data, |before|, Encode(c));
    ReadWritten(data, |before|, c);
  }

  lemma {:induction false} EncodeMonotone(cmds: seq<Command>, i: nat, j: nat)
    requires i <= j <= |cmds|
    ensures |EncodeAll(cmds[..i])| <= |EncodeAll(cmds[..j])|
    ensures i < j ==> |EncodeAll(cmds[..i])| < |EncodeAll(cmds[..j])|
  {
    hide EncodeAll;
    if i < j {
      EncodeNext(cmds, j - 1);
      EncodeMonotone(cmds, i, j - 1);
    }
  }

  lemma WholeIs(cmds: seq<Command>, n: nat, k: nat)
    requires k <= |cmds| && |EncodeAll(cmds[..k])| <= n
    requires k < |cmds| ==> n < |EncodeAll(cmds[..k + 1])|
    ensures Whole(cmds, n) == k
  {
    hide EncodeAll;
    var w := Whole(cmds, n);
    if w < k {
      EncodeMonotone(cmds, w + 1, k);
    } else if k < w {
      EncodeMonotone(cmds, k + 1, w);
    }
  }

  /** What loading the first `n` bytes of the log of `cmds` gives.  Exactly the whole commands are
      processed.  A log that stops behind a command, outside MULTI, is accepted.  Any other is cut
      and accepted if that is asked for and works, and refused otherwise.  It is cut behind the last
      whole command, but before the last MULTI if it stops behind a command inside a transaction. */
  predicate LoadedPrefix(cmds: seq<Command>, table: Table, o: Options, n: nat, r: Outcome) {
    var k := Whole(cmds, n);
    var there := cmds[..k];
    var behind := n == |EncodeAll(there)|;
    && r.client == RunAll(there, table)
    && (behind && !r.client.multi ==> r.status == Ok)
    && (!(behind && !r.client.multi) ==>
          r.status == if o.loadTruncated && o.truncateWorks then Truncated else Failed)
    && (o.loadTruncated && !(behind && r.client.multi) ==> r.validUpTo == |EncodeAll(there)|)
    && (o.loadTruncated && behind && r.client.multi ==>
          LastMulti(there, table) < k && r.validUpTo == |EncodeAll(there[..LastMulti(there, table)])|)
  }

  /** The loader on any cut of any log. */
  lemma LoadPrefix(cmds: seq<Command>, table: Table, o: Options, n: nat)
    requires Known(cmds, table) && 1 <= n <= |EncodeAll(cmds)|
    ensures LoadedPrefix(cmds, table, o, n, LoadFile(EncodeAll(cmds)[..n], table, o))
  {
    hide EncodeAll, ReadCommand, Whole, RunAll, LastMulti, Process, Load;
    var data, k := EncodeAll(cmds)[..n], Whole(cmds, n);
    var there := cmds[..k];
    PrefixStarts(cmds, n, k);
    var upTo, beforeMulti := LoadThrough(there, data[|EncodeAll(there)|..], table, o);
    if k < |cmds| {
      ReadLogged(cmds, n, k, data);
    } else {
      ReadEnd(data);
    }
    LoadStops(data, |EncodeAll(there)|, table, o, RunAll(there, table), upTo, beforeMulti);
  }

  /** The end of the file behind a command, or inside one. */
  lemma LoadStops(data: bytes, pos: nat, table: Table, o: Options, c: Client, upTo: nat, beforeMulti: nat)
    requires pos <= |data| && (ReadCommand(data, pos) == Done || ReadCommand(data, pos) == Short)
    ensures var r := Load(data, pos, table, o, c, upTo, beforeMulti);
            var behind := ReadCommand(data, pos) == Done;
            && r.client == c && r.validUpTo == (if behind && c.multi then beforeMulti else upTo)
            && r.status == (if behind && !c.multi then Ok
                            else if o.loadTruncated && o.truncateWorks then Truncated else Failed)
  {
    hide ReadCommand;
  }

  lemma PrefixStarts(cmds: seq<Command>, n: nat, k: nat)
    requires 1 <= n <= |EncodeAll(cmds)| && k == Whole(cmds, n)
    ensures var data, a := EncodeAll(cmds)[..n], EncodeAll(cmds[..k]);
            |a| <= |data| && data == a + data[|a|..] && (k == |cmds| ==> |a| == |data|)
  {
    hide EncodeAll, Encode;
    Rejoin(cmds, k);
    EncodeAllAppend(cmds[..k], cmds[k..]);
    assert k == |cmds| ==> cmds[..k] == cmds;
  }

  /** The whole log comes back: what was written is what is processed. */
  lemma LoadAll(cmds: seq<Command>, table: Table, o: Options)
    requires Known(cmds, table) && |cmds| > 0
    ensures LoadFile(EncodeAll(cmds), table, o).client == RunAll(cmds, table)
    ensures !RunAll(cmds, table).multi ==> LoadFile(EncodeAll(cmds), table, o).status == Ok
  {
    hide EncodeAll, LoadFile, RunAll;
    var n := |EncodeAll(cmds)|;
    EncodeMonotone(cmds, 0, |cmds|);
    assert cmds[..|cmds|] == cmds;
    WholeIs(cmds, n, |cmds|);
    LoadPrefix(cmds, table, o, n);
    assert EncodeAll(cmds)[..n] == EncodeAll(cmds);
  }

  // ------------------------------------------------------------------------------
  // Anything else behind a log
  // ------------------------------------------------------------------------------

  /** The file is refused, with the commands of the log processed. */
  predicate RefusedBehind(cmds: seq<Command>, rest: bytes, table: Table, o: Options) {
    var r := LoadFile(EncodeAll(cmds) + rest, table, o);
    r.status == Failed && r.client == RunAll(cmds, table)
  }

  /** A byte that starts neither a command nor an annotation is a format error. */
  lemma LoadJunk(cmds: seq<Command>, rest: bytes, table: Table, o: Options)
    requires Known(cmds, table) && |rest| > 0 && rest[0] != 42 && rest[0] != 35
    ensures RefusedBehind(cmds, rest, table, o)
  {
    var data, at := EncodeAll(cmds) + rest, |EncodeAll(cmds)|;
    var upTo, beforeMulti := LoadThrough(cmds, rest, table, o);
    ReadJunk(data, at);
    hide EncodeAll, ReadCommand, RunAll;
  }

  /** So is a command without a number of arguments. */
  lemma LoadNoArgs(cmds: seq<Command>, rest: bytes, table: Table, o: Options)
    requires Known(cmds, table) && |rest| > 1 && rest[0] == 42
    requires !IsDigit(rest[1]) && !IsSpace(rest[1]) && rest[1] != 43 && rest[1] != 45 && rest[1] != 0
    ensures RefusedBehind(cmds, rest, table, o)
  {
    var data, at := EncodeAll(cmds) + rest, |EncodeAll(cmds)|;
    var upTo, beforeMulti := LoadThrough(cmds, rest, table, o);
    hide EncodeAll, ReadCommand, RunAll;
    assert data[at] == rest[0] && data[at + 1] == rest[1];
    ReadNoArgs(data, at);
  }

  /** A command that is not in the command table is refused. */
  lemma LoadUnknown(cmds: seq<Command>, c: Command, rest: bytes, table: Table, o: Options)
    requires Known(cmds, table) && Writable(c) && table(c) == Unknown
    ensures RefusedBehind(cmds, Encode(c) + rest, table, o)
  {
    var upTo, beforeMulti := LoadThrough(cmds, Encode(c) + rest, table, o);
    ReadThere(EncodeAll(cmds), c, rest);
    hide EncodeAll, Encode, ReadCommand, RunAll;
  }

  /** One command of the loop. */
  lemma LoadOne(data: bytes, pos: nat, table: Table, o: Options, c: Client, upTo: nat, beforeMulti: nat)
    requires pos <= |data| && ReadCommand(data, pos).Got? && table(ReadCommand(data, pos).cmd) != Unknown
    ensures var r := ReadCommand(data, pos);
            Load(data, pos, table, o, c, upTo, beforeMulti) ==
            Load(data, r.next, table, o, Process(c, r.cmd, table(r.cmd)), if o.loadTruncated then r.next else upTo,
                 if table(r.cmd) == Multi then upTo else beforeMulti)
  {
    hide ReadCommand, Process;
  }

  /** The loop from anywhere in a file, with some commands behind it. */
  lemma {:induction false} LoadOn(before: bytes, done: seq<Command>, cmds: seq<Command>, rest: bytes, table: Table,
                                  o: Options, upTo: nat, beforeMulti: nat) returns (u: nat, v: nat)
    requires Known(cmds, table)
    ensures var data := before + (EncodeAll(cmds) + rest);
            Load(data, |before|, table, o, RunAll(done, table), upTo, beforeMulti) ==
            Load(data, |before + EncodeAll(cmds)|, table, o, RunAll(done + cmds, table), u, v)
    decreases |cmds|
  {
    hide Encode, ReadCommand, EncodeAll, Load, Process, RunAll;
    if |cmds| == 0 {
      u, v := upTo, beforeMulti;
      EncodeNothing();
      assert done + cmds == done && before + [] == before;
    } else {
      var m := |cmds| - 1;
      var front, last := cmds[..m], cmds[m];
      RunLast(done, cmds, table);
      EncodeNext(cmds, m);
      assert cmds[..m + 1] == cmds;
      var there := before + EncodeAll(front);
      Regroup(before, EncodeAll(front), Encode(last), rest);
      u, v := LoadOn(before, done, front, Encode(last) + rest, table, o, upTo, beforeMulti);
      ReadThere(there, last, rest);
      LoadOne(there + (Encode(last) + rest), |there|, table, o, RunAll(done + front, table), u, v);
      u, v := if o.loadTruncated then |there + Encode(last)| else u, if table(last) == Multi then u else v;
    }
  }

  lemma RunLast(done: seq<Command>, cmds: seq<Command>, table: Table)
    requires |cmds| > 0
    ensures var m := |cmds| - 1;
            RunAll(done + cmds, table) == Process(RunAll(done + cmds[..m], table), cmds[m], table(cmds[m]))
  {
    hide Process;
    var all := done + cmds;
    assert all[..|all| - 1] == done + cmds[..|cmds| - 1] && all[|all| - 1] == cmds[|cmds| - 1];
  }

  lemma Regroup(a: bytes, b: bytes, c: bytes, d: bytes)
    ensures a + (b + c + d) == a + (b + (c + d)) == a + b + (c + d) && |a + (b + c)| == |a + b + c|
  {}

  /** An annotation line between commands is skipped. */
  lemma LoadAnnotation(cmds: seq<Command>, note: bytes, more: seq<Command>, table: Table, o: Options)
    requires Known(cmds, table) && Known(more, table) && |note| < LINE_BUFFER - 2 && LF !in note
    ensures var r := LoadFile(EncodeAll(cmds) + ([HASH] + note + [LF] + EncodeAll(more)), table, o);
            && r.client == RunAll(cmds + more, table)
            && (!RunAll(cmds + more, table).multi ==> r.status == Ok)
  {
    hide EncodeAll, ReadCommand, RunAll;
    var line, first := [HASH] + note + [LF], EncodeAll(cmds);
    var data, behind := first + (line + EncodeAll(more)), first + line;
    var upTo, beforeMulti := LoadThrough(cmds, line + EncodeAll(more), table, o);
    ReadNote(first, note, EncodeAll(more));
    var u, v := LoadOn(behind, cmds, more, [], table, o, upTo, beforeMulti);
    assert data == behind + (EncodeAll(more) + []) && |behind + EncodeAll(more)| == |data|;
    ReadEnd(data);
  }

  // ------------------------------------------------------------------------------
  // Transactions
  // ------------------------------------------------------------------------------

  /** A log that ends inside MULTI: command `m` opened the block, none of what follows it
      has run, and all of it is queued. */
  lemma {:induction false} UnfinishedMulti(cmds: seq<Command>, table: Table) returns (m: nat)
    requires RunAll(cmds, table).multi
    ensures m < |cmds| && table(cmds[m]) == Multi && !RunAll(cmds[..m], table).multi
    ensures forall i :: m < i < |cmds| ==> table(cmds[i]) != Exec
    ensures RunAll(cmds, table) == Client(true, cmds[m + 1..], RunAll(cmds[..m], table).executed)
  {
    var n := |cmds| - 1;
    if RunAll(cmds[..n], table).multi {
      m := UnfinishedMulti(cmds[..n], table);
      assert cmds[..n][..m] == cmds[..m];
      assert cmds[m + 1..] == cmds[..n][m + 1..] + [cmds[n]];
    } else {
      QueueOnlyInMulti(cmds[..n], table);
      m := n;
    }
  }

  lemma {:induction false} QueueOnlyInMulti(cmds: seq<Command>, table: Table)
    ensures !RunAll(cmds, table).multi ==> RunAll(cmds, table).queued == []
  {
    if |cmds| > 0 {
      QueueOnlyInMulti(cmds[..|cmds| - 1], table);
    }
  }

  /** A finished block runs as a whole. */
  lemma {:induction false} FinishedMulti(before: seq<Command>, multi: Command, body: seq<Command>, exec: Command,
                                         table: Table)
    requires !RunAll(before, table).multi && table(multi) == Multi && table(exec) == Exec
    requires forall i :: 0 <= i < |body| ==> table(body[i]) != Exec
    ensures RunAll(before + [multi] + body + [exec], table) ==
            Client(false, [], RunAll(before, table).executed + body)
  {
    var all := before + [multi] + body + [exec];
    assert all[..|all| - 1] == before + [multi] + body;
    OpenMulti(before, multi, body, table);
  }

  lemma {:induction false} OpenMulti(before: seq<Command>, multi: Command, body: seq<Command>, table: Table)
    requires !RunAll(before, table).multi && table(multi) == Multi
    requires forall i :: 0 <= i < |body| ==> table(body[i]) != Exec
    ensures RunAll(before + [multi] + body, table) == Client(true, body, RunAll(before, table).executed)
    decreases |body|
  {
    var all := before + [multi] + body;
    if |body| == 0 {
      QueueOnlyInMulti(before, table);
      assert all[..|all| - 1] == before;
    } else {
      assert all[..|all| - 1] == before + [multi] + body[..|body| - 1];
      OpenMulti(before, multi, body[..|body| - 1], table);
    }
  }

  /** Where an unfinished transaction is cut off: before the MULTI that opened it, unless another
      MULTI was queued in it. */
  lemma {:induction false} CutBeforeMulti(cmds: seq<Command>, table: Table) returns (m: nat)
    requires RunAll(cmds, table).multi
    ensures m < |cmds| && table(cmds[m]) == Multi && !RunAll(cmds[..m], table).multi
    ensures LastMulti(cmds, table) == m <==> forall i :: m < i < |cmds| ==> table(cmds[i]) != Multi
  {
    m := UnfinishedMulti(cmds, table);
    LastMultiIs(cmds, table, m);
  }

  lemma {:induction false} LastMultiIs(cmds: seq<Command>, table: Table, m: nat)
    requires m < |cmds| && table(cmds[m]) == Multi
    ensures LastMulti(cmds, table) == m <==> forall i :: m < i < |cmds| ==> table(cmds[i]) != Multi
  {
    var n := |cmds| - 1;
    if m < n && table(cmds[n]) != Multi {
      LastMultiIs(cmds[..n], table, m);
      assert forall i :: 0 <= i < n ==> cmds[..n][i] == cmds[i];
    }
  }
}
