/** Writing a data set as commands (`rewriteListObject`, `rewriteSetObject`,
    `rewriteHashObject`, `rewriteAppendOnlyFileRio`) and the proof that replaying the
    commands rebuilds it. */
module AofRewrite {
  import opened ByteStrings
  import opened AofCodec
  import AofLoader

  const RPUSH: bytes := [82, 80, 85, 83, 72]
  const SADD: bytes := [83, 65, 68, 68]
  const HMSET: bytes := [72, 77, 83, 69, 84]
  const SET: bytes := [83, 69, 84]
  const SELECT: bytes := [83, 69, 76, 69, 67, 84]
  const PEXPIREAT: bytes := [80, 69, 88, 80, 73, 82, 69, 65, 84]

  /** `AOF_REWRITE_ITEMS_PER_CMD`. */
  const ITEMS_PER_CMD := 64

  // ------------------------------------------------------------------------------
  // Chunked emission
  // ------------------------------------------------------------------------------

  /** The arguments of several items in a row. */
  function Args(items: seq<Command>): Command {
    if |items| == 0 then [] else Args(items[..|items| - 1]) + items[|items| - 1]
  }

  /** The commands for `items[i..]`, at most `limit` items in each. */
  function Chunks(name: bytes, key: bytes, items: seq<Command>, i: nat, limit: nat): seq<Command>
    requires limit >= 1 && i <= |items|
    decreases |items| - i
  {
    if i == |items| then []
    else
      var m := Min(limit, |items| - i);
      [[name, key] + Args(items[i..i + m])] + Chunks(name, key, items, i + m, limit)
  }

  predicate Width(items: seq<Command>, width: nat) {
    forall i :: 0 <= i < |items| ==> |items[i]| == width
  }

  lemma {:induction false} ArgsLength(items: seq<Command>, width: nat)
    requires Width(items, width)
    ensures |Args(items)| == |items| * width
  {
    if |items| > 0 {
      ArgsLength(items[..|items| - 1], width);
    }
  }

  lemma ArgsNext(items: seq<Command>, i: nat, j: nat)
    requires i <= j < |items|
    ensures Args(items[i..j + 1]) == Args(items[i..j]) + items[j]
  {
    assert items[i..j + 1][..j - i] == items[i..j];
  }

  /** The output of one complete command in front of the rest. */
  lemma ChunksFirst(name: bytes, key: bytes, items: seq<Command>, i: nat, limit: nat, width: nat)
    requires limit >= 1 && i < |items| && Width(items, width)
    ensures var m := Min(limit, |items| - i);
            EncodeAll(Chunks(name, key, items, i, limit)) ==
            Header(2 + m * width) + Bulks([name, key] + Args(items[i..i + m])) +
            EncodeAll(Chunks(name, key, items, i + m, limit))
  {
    hide Bulks, Header;
    var m := Min(limit, |items| - i);
    var c := [name, key] + Args(items[i..i + m]);
    ArgsLength(items[i..i + m], width);
    EncodeAllAppend([c], Chunks(name, key, items, i + m, limit));
    EncodeOne(c);
  }

  lemma EncodeOne(c: Command)
    ensures EncodeAll([c]) == Encode(c)
  {
    hide Encode;
    assert [c][..0] == [];
  }

  lemma BulksTwo(name: bytes, key: bytes)
    ensures Bulks([name, key]) == Bulk(name) + Bulk(key)
  {
    hide Bulk;
    assert [name, key][..1] == [name];
    assert Bulks([name]) == Bulks([name][..0]) + Bulk(name);
  }

  /** Adding one item to an unfinished command. */
  lemma BulksItem(name: bytes, key: bytes, items: seq<Command>, i: nat, j: nat)
    requires i <= j < |items|
    ensures Bulks([name, key] + Args(items[i..j + 1])) ==
            Bulks([name, key] + Args(items[i..j])) + Bulks(items[j])
  {
    hide Bulks;
    ArgsNext(items, i, j);
    BulksAppend([name, key] + Args(items[i..j]), items[j]);
    assert [name, key] + Args(items[i..j + 1]) == [name, key] + Args(items[i..j]) + items[j];
  }

  lemma NoArgs(name: bytes, key: bytes, items: seq<Command>, i: nat)
    requires i <= |items|
    ensures [name, key] + Args(items[i..i]) == [name, key]
  {}

  /** The loop the three rewrite functions share: a new command header whenever the running
      count is back at zero, sized by what is left.  `width` is the number of arguments per
      item: one for lists and sets, two for hashes. */
  method Emit(out: bytes, name: bytes, key: bytes, items: seq<Command>, width: nat, limit: nat) returns (r: bytes)
    requires limit >= 1 && Width(items, width)
    ensures r == out + EncodeAll(Chunks(name, key, items, 0, limit))
  {
    hide Chunks, EncodeAll, Bulks, Bulk, Header, Args;
    r := out;
    var count, left := 0, |items|;
    ghost var all := EncodeAll(Chunks(name, key, items, 0, limit));
    ghost var start, done: bytes := 0, out;    // where the current command started, and the output before it
    ghost var head: bytes := [];               // the header of the current command
    for j := 0 to |items|
      invariant 0 <= count < limit && left == |items| - j && 0 <= start && start + count == j
      invariant out + all == done + EncodeAll(Chunks(name, key, items, start, limit))
      invariant count == 0 ==> r == done
      invariant count > 0 ==> head == Header(2 + Min(limit, |items| - start) * width)
      invariant count > 0 ==> r == done + (head + Bulks([name, key] + Args(items[start..j])))
    {
      if count == 0 {
        var cmdItems := if left > limit then limit else left;
        head := Header(2 + cmdItems * width);
        r := r + Header(2 + cmdItems * width);
        r := r + Bulk(name) + Bulk(key);
        BulksTwo(name, key);
        NoArgs(name, key, items, start);
        assert r == done + (head + Bulks([name, key] + Args(items[start..j])));
      }
      BulksItem(name, key, items, start, j);
      r := r + Bulks(items[j]);
      count, left := count + 1, left - 1;
      if count == limit {
        ChunksFirst(name, key, items, start, limit, width);
        count := 0;
        done, start := r, j + 1;
      }
    }
    if count > 0 {
      ChunksFirst(name, key, items, start, limit, width);
    }
    NoChunks(name, key, items, limit);
  }

  lemma NoChunks(name: bytes, key: bytes, items: seq<Command>, limit: nat)
    requires limit >= 1
    ensures EncodeAll(Chunks(name, key, items, |items|, limit)) == []
  {}

  // ------------------------------------------------------------------------------
  // Objects, in the order their iterators deliver them
  // ------------------------------------------------------------------------------

  datatype Object = Str(value: bytes)
                  | List(items: seq<bytes>)
                  | Set(members: seq<bytes>)
                  | Hash(fields: seq<(bytes, bytes)>)

  datatype Expire = Never | At(time: nat)

  datatype Entry = Entry(key: bytes, obj: Object, expire: Expire)

  type Database = seq<Entry>

  function Singles(items: seq<bytes>): (r: seq<Command>)
    ensures Width(r, 1)
  {
    seq(|items|, i requires 0 <= i < |items| => [items[i]])
  }

  function Pairs(fields: seq<(bytes, bytes)>): (r: seq<Command>)
    ensures Width(r, 2)
  {
    seq(|fields|, i requires 0 <= i < |fields| => [fields[i].0, fields[i].1])
  }

  function ObjectCommands(key: bytes, o: Object, limit: nat): seq<Command>
    requires limit >= 1
  {
    match o
    case Str(v) => [[SET, key, v]]
    case List(items) => Chunks(RPUSH, key, Singles(items), 0, limit)
    case Set(members) => Chunks(SADD, key, Singles(members), 0, limit)
    case Hash(fields) => Chunks(HMSET, key, Pairs(fields), 0, limit)
  }

  function EntryCommands(e: Entry, limit: nat): seq<Command>
    requires limit >= 1
  {
    ObjectCommands(e.key, e.obj, limit) +
    if e.expire.At? then [[PEXPIREAT, e.key, Decimal(e.expire.time)]] else []
  }

  function EntriesCommands(db: Database, limit: nat): seq<Command>
    requires limit >= 1
  {
    if |db| == 0 then [] else EntriesCommands(db[..|db| - 1], limit) + EntryCommands(db[|db| - 1], limit)
  }

  function DatabaseCommands(j: nat, db: Database, limit: nat): seq<Command>
    requires limit >= 1
  {
    if |db| == 0 then [] else [[SELECT, Decimal(j)]] + EntriesCommands(db, limit)
  }

  function DatasetCommands(dbs: seq<Database>, limit: nat): seq<Command>
    requires limit >= 1
  {
    if |dbs| == 0 then []
    else DatasetCommands(dbs[..|dbs| - 1], limit) + DatabaseCommands(|dbs| - 1, dbs[|dbs| - 1], limit)
  }

  /** One object: SET, or the chunked command of its type. */
  method RewriteObject(out: bytes, key: bytes, o: Object, limit: nat) returns (r: bytes)
    requires limit >= 1
    ensures r == out + EncodeAll(ObjectCommands(key, o, limit))
  {
    hide EncodeAll;
    match o {
      case Str(v) =>
        EncodeOne([SET, key, v]);
        r := CatCommand(out, [SET, key, v]);
      case List(items) =>
        r := Emit(out, RPUSH, key, Singles(items), 1, limit);
      case Set(members) =>
        r := Emit(out, SADD, key, Singles(members), 1, limit);
      case Hash(fields) =>
        r := Emit(out, HMSET, key, Pairs(fields), 2, limit);
    }
  }

  /** `rewriteAppendOnlyFileRio`: every database that is not empty, key by key. */
  method Rewrite(dbs: seq<Database>) returns (r: bytes)
    ensures r == EncodeAll(DatasetCommands(dbs, ITEMS_PER_CMD))
  {
    hide EncodeAll, ObjectCommands;
    r := [];
    EncodeNothing();
    for j := 0 to |dbs|
      invariant r == EncodeAll(DatasetCommands(dbs[..j], ITEMS_PER_CMD))
    {
      assert dbs[..j + 1][..j] == dbs[..j];
      EncodeAllAppend(DatasetCommands(dbs[..j], ITEMS_PER_CMD), DatabaseCommands(j, dbs[j], ITEMS_PER_CMD));
      r := RewriteDatabase(r, j, dbs[j]);
    }
    assert dbs[..|dbs|] == dbs;
  }

  method RewriteDatabase(out: bytes, j: nat, db: Database) returns (r: bytes)
    ensures r == out + EncodeAll(DatabaseCommands(j, db, ITEMS_PER_CMD))
  {
    hide EncodeAll, EntryCommands;
    r := out;
    EncodeNothing();
    if |db| == 0 {
      return;
    }
    var select := [SELECT, Decimal(j)];
    EncodeOne(select);
    r := CatCommand(r, select);
    ghost var base := r;
    for i := 0 to |db|
      invariant r == base + EncodeAll(EntriesCommands(db[..i], ITEMS_PER_CMD))
    {
      assert db[..i + 1][..i] == db[..i];
      EncodeAllAppend(EntriesCommands(db[..i], ITEMS_PER_CMD), EntryCommands(db[i], ITEMS_PER_CMD));
      r := RewriteEntry(r, db[i]);
    }
    assert db[..|db|] == db;
    EncodeAllAppend([select], EntriesCommands(db, ITEMS_PER_CMD));
  }

  method RewriteEntry(out: bytes, e: Entry) returns (r: bytes)
    ensures r == out + EncodeAll(EntryCommands(e, ITEMS_PER_CMD))
  {
    hide EncodeAll, ObjectCommands;
    var body := ObjectCommands(e.key, e.obj, ITEMS_PER_CMD);
    r := RewriteObject(out, e.key, e.obj, ITEMS_PER_CMD);
    EncodeNothing();
    if e.expire.At? {
      var expire := [PEXPIREAT, e.key, Decimal(e.expire.time)];
      EncodeOne(expire);
      EncodeAllAppend(body, [expire]);
      r := CatCommand(r, expire);
    } else {
      EncodeAllAppend(body, []);
    }
  }

  // ------------------------------------------------------------------------------
  // Replay
  // ------------------------------------------------------------------------------

  datatype Value = VStr(s: bytes) | VList(l: seq<bytes>) | VSet(m: set<bytes>) | VHash(h: map<bytes, bytes>)

  type Slot = (nat, bytes)   // a key of a database

  /** The data set: values and expire times by slot, and the selected database. */
  datatype Store = Store(values: map<Slot, Value>, expires: map<Slot, nat>, cur: nat)

  function PutPairs(h: map<bytes, bytes>, args: Command): map<bytes, bytes>
    decreases |args|
  {
    if |args| < 2 then h else PutPairs(h[args[0] := args[1]], args[2..])
  }

  function Elements(args: Command): set<bytes> {
    set a | a in args
  }

  datatype Maybe = Missing | Found(value: Value)

  /** The value of a slot after `name` was applied with `args`; a wrong type is left alone. */
  function Added(was: Maybe, name: bytes, args: Command): Value {
    if name == RPUSH then
      if was.Missing? then VList(args) else if was.value.VList? then VList(was.value.l + args) else was.value
    else if name == SADD then
      if was.Missing? then VSet(Elements(args))
      else if was.value.VSet? then VSet(was.value.m + Elements(args)) else was.value
    else
      if was.Missing? then VHash(PutPairs(map[], args))
      else if was.value.VHash? then VHash(PutPairs(was.value.h, args)) else was.value
  }

  function Lookup(s: Store, k: Slot): Maybe {
    if k in s.values then Found(s.values[k]) else Missing
  }

  /** The store with one slot replaced. */
  function With(s: Store, k: Slot, v: Value): Store {
    s.(values := s.values[k := v])
  }

  /** What the replayed commands do to the data set. */
  function Exec(s: Store, c: Command): Store {
    if |c| == 2 && c[0] == SELECT then s.(cur := Digits(c[1], 0))
    else if |c| == 3 && c[0] == SET then
      s.(values := s.values[(s.cur, c[1]) := VStr(c[2])], expires := s.expires - {(s.cur, c[1])})
    else if |c| == 3 && c[0] == PEXPIREAT then
      if (s.cur, c[1]) in s.values then s.(expires := s.expires[(s.cur, c[1]) := Digits(c[2], 0)]) else s
    else if |c| >= 3 && (c[0] == RPUSH || c[0] == SADD || (c[0] == HMSET && |c| % 2 == 0)) then
      var k := (s.cur, c[1]);
      With(s, k, Added(Lookup(s, k), c[0], c[2..]))
    else s
  }

  function Replay(s: Store, cmds: seq<Command>): Store {
    if |cmds| == 0 then s else Exec(Replay(s, cmds[..|cmds| - 1]), cmds[|cmds| - 1])
  }

  lemma {:induction false} ReplayAppend(s: Store, a: seq<Command>, b: seq<Command>)
    ensures Replay(s, a + b) == Replay(Replay(s, a), b)
    decreases |b|
  {
    hide Exec;
    if |b| == 0 {
      assert a + b == a;
    } else {
      assert (a + b)[..|a + b| - 1] == a + b[..|b| - 1];
      ReplayAppend(s, a, b[..|b| - 1]);
    }
  }

  function ValueOf(o: Object): Value {
    match o
    case Str(v) => VStr(v)
    case List(items) => VList(items)
    case Set(members) => VSet(Elements(members))
    case Hash(fields) => VHash(MapOf(fields))
  }

  function MapOf(fields: seq<(bytes, bytes)>): map<bytes, bytes> {
    if |fields| == 0 then map[] else MapOf(fields[..|fields| - 1])[fields[|fields| - 1].0 := fields[|fields| - 1].1]
  }

  lemma {:induction false} PutPairsAppend(h: map<bytes, bytes>, a: Command, b: Command)
    requires |a| % 2 == 0
    ensures PutPairs(h, a + b) == PutPairs(PutPairs(h, a), b)
    decreases |a|
  {
    if |a| == 0 {
      assert a + b == b;
    } else {
      assert (a + b)[2..] == a[2..] + b;
      PutPairsAppend(h[a[0] := a[1]], a[2..], b);
    }
  }

  lemma ElementsAppend(a: Command, b: Command)
    ensures Elements(a + b) == Elements(a) + Elements(b)
  {}

  /** Adding in two portions is adding at once. */
  lemma AddedAppend(name: bytes, a: Command, b: Command)
    requires name == RPUSH || name == SADD || name == HMSET
    requires name == HMSET ==> |a| % 2 == 0
    ensures Added(Found(Added(Missing, name, a)), name, b) == Added(Missing, name, a + b)
  {
    PutPairsAppendIf(a, b, name);
    ElementsAppend(a, b);
  }

  lemma PutPairsAppendIf(a: Command, b: Command, name: bytes)
    requires name == HMSET ==> |a| % 2 == 0
    ensures name == HMSET ==> PutPairs(map[], a + b) == PutPairs(PutPairs(map[], a), b)
  {
    if name == HMSET {
      PutPairsAppend(map[], a, b);
    }
  }

  /** The number of arguments per item of each command. */
  function ItemWidth(name: bytes): nat {
    if name == HMSET then 2 else 1
  }

  /** Slot `key` holds what `name` built from `args` so far; nothing yet if there are none. */
  predicate Holds(s: Store, key: bytes, name: bytes, args: Command) {
    Lookup(s, (s.cur, key)) == if args == [] then Missing else Found(Added(Missing, name, args))
  }

  lemma ExecChunk(s: Store, name: bytes, key: bytes, before: Command, args: Command)
    requires name == RPUSH || name == SADD || name == HMSET
    requires |args| >= 1 && (name == HMSET ==> |args| % 2 == 0 && |before| % 2 == 0)
    requires Holds(s, key, name, before)
    ensures Exec(s, [name, key] + args) == With(s, (s.cur, key), Added(Missing, name, before + args))
  {
    hide Added;
    var c := [name, key] + args;
    assert c[0] == name && c[1] == key && c[2..] == args;
    AddedAppend(name, before, args);
    if before == [] {
      assert before + args == args;
    }
  }

  lemma {:induction false} ArgsAppend(a: seq<Command>, b: seq<Command>)
    ensures Args(a + b) == Args(a) + Args(b)
    decreases |b|
  {
    if |b| == 0 {
      assert a + b == a;
    } else {
      assert (a + b)[..|a + b| - 1] == a + b[..|b| - 1];
      ArgsAppend(a, b[..|b| - 1]);
    }
  }

  lemma {:induction false} ArgsShape(items: seq<Command>, name: bytes)
    requires Width(items, ItemWidth(name))
    ensures |items| >= 1 <==> Args(items) != []
    ensures name == HMSET ==> |Args(items)| % 2 == 0
  {
    if |items| > 0 {
      ArgsShape(items[..|items| - 1], name);
    }
  }

  predicate Builds(name: bytes, items: seq<Command>) {
    (name == RPUSH || name == SADD || name == HMSET) && Width(items, ItemWidth(name))
  }

  /** The slot after the first `i` items. */
  function Partly(s: Store, name: bytes, key: bytes, items: seq<Command>, i: nat): Store
    requires i <= |items|
  {
    With(s, (s.cur, key), Added(Missing, name, Args(items[..i])))
  }

  lemma ReplayChunk(s: Store, name: bytes, key: bytes, items: seq<Command>, i: nat, m: nat)
    requires Builds(name, items) && i + m <= |items| && m >= 1
    requires Holds(s, key, name, Args(items[..i]))
    ensures Exec(s, [name, key] + Args(items[i..i + m])) == Partly(s, name, key, items, i + m)
    ensures Holds(Partly(s, name, key, items, i + m), key, name, Args(items[..i + m]))
  {
    hide Exec, Added, Args;
    ArgsShape(items[..i], name);
    ArgsShape(items[i..i + m], name);
    ArgsShape(items[..i + m], name);
    ExecChunk(s, name, key, Args(items[..i]), Args(items[i..i + m]));
    ArgsAppend(items[..i], items[i..i + m]);
    assert items[..i] + items[i..i + m] == items[..i + m];
  }

  /** Replaying the chunks for `items[i..]` on top of `items[..i]` gives all items. */
  lemma {:induction false} ReplayChunks(s: Store, name: bytes, key: bytes, items: seq<Command>, i: nat, limit: nat)
    requires limit >= 1 && i < |items| && Builds(name, items)
    requires Holds(s, key, name, Args(items[..i]))
    ensures Replay(s, Chunks(name, key, items, i, limit)) == Partly(s, name, key, items, |items|)
    decreases |items| - i
  {
    hide Exec, Added, Args, Holds, Replay;
    var m := Min(limit, |items| - i);
    var rest := Chunks(name, key, items, i + m, limit);
    ReplayChunk(s, name, key, items, i, m);
    ReplayFirst(s, [name, key] + Args(items[i..i + m]), rest);
    var t := Partly(s, name, key, items, i + m);
    if i + m < |items| {
      LookupWith(s, (s.cur, key), Added(Missing, name, Args(items[..i + m])));
      ReplayChunks(t, name, key, items, i + m, limit);
    } else {
      ReplayNone(t);
    }
  }

  lemma ReplayNone(s: Store)
    ensures Replay(s, []) == s
  {}

  lemma LookupWith(s: Store, k: Slot, v: Value)
    ensures Lookup(With(s, k, v), k) == Found(v)
    ensures forall w :: With(With(s, k, v), k, w) == With(s, k, w)
  {
    forall w ensures With(With(s, k, v), k, w) == With(s, k, w) {
      assert s.values[k := v][k := w] == s.values[k := w];
    }
  }

  lemma ReplayFirst(s: Store, c: Command, rest: seq<Command>)
    ensures Replay(s, [c] + rest) == Replay(Exec(s, c), rest)
  {
    hide Exec;
    ReplayAppend(s, [c], rest);
    assert [c][..0] == [];
    assert Replay(s, [c]) == Exec(Replay(s, []), c);
  }

  // ------------------------------------------------------------------------------
  // Replaying what was written rebuilds the data set
  // ------------------------------------------------------------------------------

  lemma {:induction false} ArgsOfSingles(items: seq<bytes>)
    ensures Args(Singles(items)) == items
  {
    if |items| > 0 {
      var n := |items| - 1;
      assert Singles(items)[..n] == Singles(items[..n]);
      ArgsOfSingles(items[..n]);
    }
  }

  lemma {:induction false} ArgsOfPairs(fields: seq<(bytes, bytes)>)
    ensures PutPairs(map[], Args(Pairs(fields))) == MapOf(fields)
  {
    if |fields| > 0 {
      var n := |fields| - 1;
      var last := [fields[n].0, fields[n].1];
      assert Pairs(fields)[..n] == Pairs(fields[..n]);
      ArgsOfPairs(fields[..n]);
      ArgsShape(Pairs(fields[..n]), HMSET);
      PutPairsAppend(map[], Args(Pairs(fields[..n])), last);
      var h := PutPairs(map[], Args(Pairs(fields[..n])));
      assert PutPairs(h, last) == PutPairs(h[last[0] := last[1]], last[2..]);
    }
  }

  /** Lists, sets and hashes are never empty: the server deletes a key with its last element. */
  predicate NonEmpty(o: Object) {
    match o
    case Str(v) => true
    case List(items) => |items| >= 1
    case Set(members) => |members| >= 1
    case Hash(fields) => |fields| >= 1
  }

  /** An object written under a fresh key comes back as it was, whatever the chunk limit. */
  lemma ReplayObject(s: Store, key: bytes, o: Object, limit: nat)
    requires limit >= 1 && NonEmpty(o)
    requires (s.cur, key) !in s.values && (s.cur, key) !in s.expires
    ensures Replay(s, ObjectCommands(key, o, limit)) == With(s, (s.cur, key), ValueOf(o))
  {
    hide Exec, Replay, Chunks;
    match o {
      case Str(v) =>
        ReplayFirst(s, [SET, key, v], []);
        assert [[SET, key, v]] + [] == [[SET, key, v]];
        ExecSet(s, key, v);
        ReplayNone(With(s, (s.cur, key), VStr(v)));
      case List(items) =>
        ReplayBuilt(s, RPUSH, key, Singles(items), limit);
        ArgsOfSingles(items);
      case Set(members) =>
        ReplayBuilt(s, SADD, key, Singles(members), limit);
        ArgsOfSingles(members);
      case Hash(fields) =>
        ReplayBuilt(s, HMSET, key, Pairs(fields), limit);
        ArgsOfPairs(fields);
    }
  }

  lemma ExecSet(s: Store, key: bytes, v: bytes)
    requires (s.cur, key) !in s.expires
    ensures Exec(s, [SET, key, v]) == With(s, (s.cur, key), VStr(v))
  {
    assert s.expires - {(s.cur, key)} == s.expires;
  }

  lemma ReplayBuilt(s: Store, name: bytes, key: bytes, items: seq<Command>, limit: nat)
    requires limit >= 1 && |items| >= 1 && Builds(name, items)
    requires (s.cur, key) !in s.values
    ensures Replay(s, Chunks(name, key, items, 0, limit)) ==
            With(s, (s.cur, key), Added(Missing, name, Args(items)))
  {
    hide Replay, Chunks, Added;
    assert items[..0] == [];
    ReplayChunks(s, name, key, items, 0, limit);
    assert items[..|items|] == items;
  }

  /** The slots of the first database entries, as values and as expire times. */
  function Values(j: nat, db: Database): map<Slot, Value> {
    if |db| == 0 then map[]
    else Values(j, db[..|db| - 1])[(j, db[|db| - 1].key) := ValueOf(db[|db| - 1].obj)]
  }

  function Expires(j: nat, db: Database): map<Slot, nat> {
    if |db| == 0 then map[]
    else
      var e, before := db[|db| - 1], Expires(j, db[..|db| - 1]);
      if e.expire.At? then before[(j, e.key) := e.expire.time] else before
  }

  predicate WellFormed(db: Database) {
    && (forall i :: 0 <= i < |db| ==> NonEmpty(db[i].obj))
    && (forall i, k :: 0 <= i < k < |db| ==> db[i].key != db[k].key)
  }

  lemma {:induction false} SlotsOf(j: nat, db: Database)
    ensures forall k :: k in Values(j, db) ==> k.0 == j && exists i :: 0 <= i < |db| && db[i].key == k.1
    ensures Expires(j, db).Keys <= Values(j, db).Keys
  {
    if |db| > 0 {
      var n := |db| - 1;
      SlotsOf(j, db[..n]);
      forall k | k in Values(j, db) ensures k.0 == j && exists i :: 0 <= i < |db| && db[i].key == k.1 {
        if k in Values(j, db[..n]) {
          var i :| 0 <= i < n && db[..n][i].key == k.1;
          assert db[i].key == k.1;
        } else {
          assert db[n].key == k.1;
        }
      }
    }
  }

  /** One key with its expire time. */
  lemma ReplayEntry(s: Store, e: Entry, limit: nat)
    requires limit >= 1 && NonEmpty(e.obj)
    requires (s.cur, e.key) !in s.values && (s.cur, e.key) !in s.expires
    ensures Replay(s, EntryCommands(e, limit)) ==
            Store(s.values[(s.cur, e.key) := ValueOf(e.obj)],
                  if e.expire.At? then s.expires[(s.cur, e.key) := e.expire.time] else s.expires, s.cur)
  {
    hide Replay, ObjectCommands, ValueOf;
    var body := ObjectCommands(e.key, e.obj, limit);
    ReplayObject(s, e.key, e.obj, limit);
    var t := With(s, (s.cur, e.key), ValueOf(e.obj));
    if e.expire.At? {
      var c := [PEXPIREAT, e.key, Decimal(e.expire.time)];
      ReplayAppend(s, body, [c]);
      ReplayFirst(t, c, []);
      assert [c] + [] == [c];
      ReplayNone(Exec(t, c));
      DigitsOfDecimal(e.expire.time);
    } else {
      assert body + [] == body;
    }
  }

  lemma FreshSlot(j: nat, db: Database, n: nat)
    requires WellFormed(db) && n < |db|
    ensures (j, db[n].key) !in Values(j, db[..n]) && (j, db[n].key) !in Expires(j, db[..n])
  {
    SlotsOf(j, db[..n]);
  }

  lemma UpdateSum<K, V>(a: map<K, V>, b: map<K, V>, k: K, v: V)
    ensures (a + b)[k := v] == a + b[k := v]
  {}

  lemma {:induction false} ReplayEntries(s: Store, db: Database, limit: nat)
    requires limit >= 1 && WellFormed(db)
    requires forall k :: k in s.values || k in s.expires ==> k.0 != s.cur
    ensures Replay(s, EntriesCommands(db, limit)) ==
            Store(s.values + Values(s.cur, db), s.expires + Expires(s.cur, db), s.cur)
  {
    hide Replay, EntryCommands, ValueOf, NonEmpty;
    if |db| == 0 {
      ReplayNone(s);
    } else {
      var n := |db| - 1;
      var e, values, expires := db[n], Values(s.cur, db[..n]), Expires(s.cur, db[..n]);
      ReplayEntries(s, db[..n], limit);
      FreshSlot(s.cur, db, n);
      ReplayAppend(s, EntriesCommands(db[..n], limit), EntryCommands(e, limit));
      ReplayEntry(Store(s.values + values, s.expires + expires, s.cur), e, limit);
      UpdateSum(s.values, values, (s.cur, e.key), ValueOf(e.obj));
      if e.expire.At? {
        UpdateSum(s.expires, expires, (s.cur, e.key), e.expire.time);
      }
    }
  }

  /** All databases together. */
  function AllValues(dbs: seq<Database>): map<Slot, Value> {
    if |dbs| == 0 then map[] else AllValues(dbs[..|dbs| - 1]) + Values(|dbs| - 1, dbs[|dbs| - 1])
  }

  function AllExpires(dbs: seq<Database>): map<Slot, nat> {
    if |dbs| == 0 then map[] else AllExpires(dbs[..|dbs| - 1]) + Expires(|dbs| - 1, dbs[|dbs| - 1])
  }

  lemma {:induction false} AllSlots(dbs: seq<Database>)
    ensures forall k :: k in AllValues(dbs) || k in AllExpires(dbs) ==> k.0 < |dbs|
  {
    if |dbs| > 0 {
      AllSlots(dbs[..|dbs| - 1]);
      SlotsOf(|dbs| - 1, dbs[|dbs| - 1]);
    }
  }

  const EMPTY_STORE := Store(map[], map[], 0)

  lemma ReplayDatabase(s: Store, j: nat, db: Database, limit: nat)
    requires limit >= 1 && WellFormed(db)
    requires forall k :: k in s.values || k in s.expires ==> k.0 < j
    ensures Replay(s, DatabaseCommands(j, db, limit)).values == s.values + Values(j, db)
    ensures Replay(s, DatabaseCommands(j, db, limit)).expires == s.expires + Expires(j, db)
  {
    hide Replay, EntriesCommands;
    if |db| == 0 {
      ReplayNone(s);
    } else {
      ReplayFirst(s, [SELECT, Decimal(j)], EntriesCommands(db, limit));
      DigitsOfDecimal(j);
      ReplayEntries(s.(cur := j), db, limit);
    }
  }

  /** The rewrite preserves the data set: replayed from nothing, it gives every key of every
      database its value and its expire time, and nothing else. */
  lemma {:induction false} ReplayRewrite(dbs: seq<Database>, limit: nat)
    requires limit >= 1 && forall j :: 0 <= j < |dbs| ==> WellFormed(dbs[j])
    ensures Replay(EMPTY_STORE, DatasetCommands(dbs, limit)).values == AllValues(dbs)
    ensures Replay(EMPTY_STORE, DatasetCommands(dbs, limit)).expires == AllExpires(dbs)
  {
    hide Replay, DatabaseCommands, Values, Expires, WellFormed;
    if |dbs| == 0 {
      ReplayNone(EMPTY_STORE);
    } else {
      var n := |dbs| - 1;
      ReplayRewrite(dbs[..n], limit);
      ReplayAppend(EMPTY_STORE, DatasetCommands(dbs[..n], limit), DatabaseCommands(n, dbs[n], limit));
      AllSlots(dbs[..n]);
      ReplayDatabase(Replay(EMPTY_STORE, DatasetCommands(dbs[..n], limit)), n, dbs[n], limit);
    }
  }

  lemma {:induction false} PlainRuns(cmds: seq<Command>, table: AofLoader.Table)
    requires forall i :: 0 <= i < |cmds| ==> table(cmds[i]) == AofLoader.Plain
    ensures AofLoader.RunAll(cmds, table) == AofLoader.Client(false, [], cmds)
  {
    if |cmds| > 0 {
      PlainRuns(cmds[..|cmds| - 1], table);
    }
  }

  /** From the data set to bytes, back through the loader, and to the data set again. */
  lemma LoadRewritten(dbs: seq<Database>, table: AofLoader.Table, o: AofLoader.Options)
    requires forall j :: 0 <= j < |dbs| ==> WellFormed(dbs[j])
    requires var cmds := DatasetCommands(dbs, ITEMS_PER_CMD);
             |cmds| > 0 && forall i :: 0 <= i < |cmds| ==> Writable(cmds[i]) && table(cmds[i]) == AofLoader.Plain
    ensures var r := AofLoader.LoadFile(EncodeAll(DatasetCommands(dbs, ITEMS_PER_CMD)), table, o);
            && r.status == AofLoader.Ok
            && Replay(EMPTY_STORE, r.client.executed).values == AllValues(dbs)
            && Replay(EMPTY_STORE, r.client.executed).expires == AllExpires(dbs)
  {
    hide Replay, DatasetCommands, AofLoader.LoadFile, AllValues, AllExpires;
    var cmds := DatasetCommands(dbs, ITEMS_PER_CMD);
    PlainRuns(cmds, table);
    AofLoader.LoadAll(cmds, table, o);
    ReplayRewrite(dbs, ITEMS_PER_CMD);
  }

  // ------------------------------------------------------------------------------
  // The commands themselves
  // ------------------------------------------------------------------------------

  lemma Multiple(n: nat, limit: nat)
    requires n > 0
    ensures n * limit == limit + (n - 1) * limit && (n - 1) * limit >= 0
  {}

  /** Command `n` has the next `limit` items, the last one what is left of them. */
  lemma {:induction false} ChunkIs(name: bytes, key: bytes, items: seq<Command>, i: nat, limit: nat, n: nat, a: nat)
    requires limit >= 1 && i <= |items| && a == i + n * limit
    ensures n < |Chunks(name, key, items, i, limit)| <==> a < |items|
    ensures a < |items| ==>
              Chunks(name, key, items, i, limit)[n] == [name, key] + Args(items[a..Min(a + limit, |items|)])
    decreases n
  {
    hide Args;
    if n > 0 {
      Multiple(n, limit);
      if i < |items| {
        var m := Min(limit, |items| - i);
        if m < limit {
          assert Chunks(name, key, items, |items|, limit) == [];
        } else {
          ChunkIs(name, key, items, i + m, limit, n - 1, a);
        }
      }
    }
  }

  lemma {:induction false} SinglesPart(items: seq<bytes>, a: nat, b: nat)
    requires a <= b <= |items|
    ensures Args(Singles(items)[a..b]) == items[a..b]
  {
    if a < b {
      SinglesPart(items, a, b - 1);
      ArgsNext(Singles(items), a, b - 1);
    }
  }

  /** The fields and values of some pairs, in turn. */
  predicate Paired(args: Command, fields: seq<(bytes, bytes)>) {
    |args| == 2 * |fields| &&
    forall j :: 0 <= j < |fields| ==> args[2 * j] == fields[j].0 && args[2 * j + 1] == fields[j].1
  }

  lemma PairedNext(args: Command, fields: seq<(bytes, bytes)>, f: (bytes, bytes))
    requires Paired(args, fields)
    ensures Paired(args + [f.0, f.1], fields + [f])
  {}

  lemma {:induction false} PairsPart(fields: seq<(bytes, bytes)>, a: nat, b: nat)
    requires a <= b <= |fields|
    ensures Paired(Args(Pairs(fields)[a..b]), fields[a..b])
  {
    if a < b {
      hide Args, Paired;
      PairsPart(fields, a, b - 1);
      ArgsNext(Pairs(fields), a, b - 1);
      PairedNext(Args(Pairs(fields)[a..b - 1]), fields[a..b - 1], fields[b - 1]);
      assert fields[a..b] == fields[a..b - 1] + [fields[b - 1]];
    }
  }

  /** Command `n` for an object: SET with the value, or RPUSH, SADD or HMSET with the next 64 items. */
  lemma CommandIs(key: bytes, o: Object, n: nat)
    ensures var cmds, a := ObjectCommands(key, o, ITEMS_PER_CMD), 64 * n;
            match o
            case Str(v) => cmds == [[[83, 69, 84], key, v]]
            case List(items) =>
              (n < |cmds| <==> a < |items|) &&
              (a < |items| ==> cmds[n] == [[82, 80, 85, 83, 72], key] + items[a..Min(a + 64, |items|)])
            case Set(members) =>
              (n < |cmds| <==> a < |members|) &&
              (a < |members| ==> cmds[n] == [[83, 65, 68, 68], key] + members[a..Min(a + 64, |members|)])
            case Hash(fields) =>
              (n < |cmds| <==> a < |fields|) &&
              (a < |fields| ==>
                 var c, b := cmds[n], Min(a + 64, |fields|);
                 |c| == 2 + 2 * (b - a) && c[0] == [72, 77, 83, 69, 84] && c[1] == key &&
                 forall j :: 0 <= j < b - a ==>
                   c[2 + 2 * j] == fields[a + j].0 && c[3 + 2 * j] == fields[a + j].1)
  {
    hide Chunks, Args;
    match o {
      case Str(v) =>
      case List(items) =>
        ChunkIs(RPUSH, key, Singles(items), 0, ITEMS_PER_CMD, n, 64 * n);
        if 64 * n < |items| {
          SinglesPart(items, 64 * n, Min(64 * n + 64, |items|));
        }
      case Set(members) =>
        ChunkIs(SADD, key, Singles(members), 0, ITEMS_PER_CMD, n, 64 * n);
        if 64 * n < |members| {
          SinglesPart(members, 64 * n, Min(64 * n + 64, |members|));
        }
      case Hash(fields) =>
        ChunkIs(HMSET, key, Pairs(fields), 0, ITEMS_PER_CMD, n, 64 * n);
        if 64 * n < |fields| {
          PairsPart(fields, 64 * n, Min(64 * n + 64, |fields|));
        }
    }
  }

  /** SELECT in front of a database, PEXPIREAT behind an object that expires. */
  lemma FramesAre(e: Entry, j: nat, db: Database)
    ensures EntryCommands(e, ITEMS_PER_CMD) ==
            ObjectCommands(e.key, e.obj, ITEMS_PER_CMD) +
            match e.expire
            case Never => []
            case At(time) => [[[80, 69, 88, 80, 73, 82, 69, 65, 84], e.key, Decimal(time)]]
    ensures |db| > 0 ==>
              DatabaseCommands(j, db, ITEMS_PER_CMD) ==
              [[[83, 69, 76, 69, 67, 84], Decimal(j)]] + EntriesCommands(db, ITEMS_PER_CMD)
  {
    hide ObjectCommands, EntriesCommands, Decimal;
  }
}
