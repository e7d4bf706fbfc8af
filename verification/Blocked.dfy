/** Clients blocked on keys: a two-way index between clients and keys, the keys that are ready,
    the clients to be processed again, and the counters.

    Module clients are not modelled.  A queue node is identified by its client: a client stands
    at most once in the queue of a key. */
module Blocked {
  datatype BType = NoBlock | OnList | OnZset | OnStream | OnWait | OnWaitAof | OnPostpone | OnShutdown

  type Id = nat

  datatype Key = Key(db: nat, name: seq<char>)

  /** `queued` is CLIENT_UNBLOCKED, `pending` is CLIENT_PENDING_COMMAND. */
  datatype Client = Client(btype: BType, blocked: bool, queued: bool, pending: bool, keys: set<Key>, nokey: bool)

  type Clients = map<Id, Client>
  type Queues = map<Key, seq<Id>>
  type Counts = map<Key, nat>

  predicate OnKeys(b: BType) {
    b == OnList || b == OnZset || b == OnStream
  }

  function Queue(b: Queues, k: Key): seq<Id> {
    if k in b then b[k] else []
  }

  function Count(n: Counts, k: Key): nat {
    if k in n then n[k] else 0
  }

  // ------------------------------------------------------------------------------
  // The index
  // ------------------------------------------------------------------------------

  predicate Distinct(q: seq<Id>) {
    forall i, j :: 0 <= i < j < |q| ==> q[i] != q[j]
  }

  /** How many clients of a queue want to know when the key goes away. */
  function Flagged(cl: Clients, q: seq<Id>): nat {
    if |q| == 0 then 0
    else Flagged(cl, q[..|q| - 1]) + if q[|q| - 1] in cl && cl[q[|q| - 1]].nokey then 1 else 0
  }

  /** Clients and keys name each other: the queues and the clients' key sets are one relation. */
  ghost predicate TwoWay(cl: Clients, b: Queues) {
    && (forall k :: k in b ==> |b[k]| > 0 && Distinct(b[k]))
    && (forall k, c :: c in Queue(b, k) <==> c in cl && k in cl[c].keys)
  }

  /** The counts of clients waiting for a deletion are those of the queues; no count is zero. */
  ghost predicate NoKeyCounts(cl: Clients, b: Queues, n: Counts) {
    && (forall k :: Count(n, k) == Flagged(cl, Queue(b, k)))
    && (forall k :: k in n ==> n[k] > 0)
  }

  ghost predicate Index(cl: Clients, b: Queues, n: Counts) {
    TwoWay(cl, b) && NoKeyCounts(cl, b, n)
  }

  function Without(q: seq<Id>, c: Id): seq<Id> {
    if |q| == 0 then []
    else Without(q[..|q| - 1], c) + if q[|q| - 1] == c then [] else [q[|q| - 1]]
  }

  lemma {:induction false} WithoutMember(q: seq<Id>, c: Id, d: Id)
    ensures d in Without(q, c) <==> d in q && d != c
  {
    if |q| > 0 {
      WithoutMember(q[..|q| - 1], c, d);
      assert q == q[..|q| - 1] + [q[|q| - 1]];
    }
  }

  lemma {:induction false} WithoutAbsent(q: seq<Id>, c: Id)
    requires c !in q
    ensures Without(q, c) == q
  {
    if |q| > 0 {
      WithoutAbsent(q[..|q| - 1], c);
      assert q == q[..|q| - 1] + [q[|q| - 1]];
    }
  }

  lemma {:induction false} WithoutAppend(q: seq<Id>, r: seq<Id>, c: Id)
    ensures Without(q + r, c) == Without(q, c) + Without(r, c)
  {
    if |r| == 0 {
      assert q + r == q;
    } else {
      assert (q + r)[..|q + r| - 1] == q + r[..|r| - 1];
      WithoutAppend(q, r[..|r| - 1], c);
    }
  }

  lemma {:induction false} WithoutDistinct(q: seq<Id>, c: Id)
    requires Distinct(q)
    ensures Distinct(Without(q, c))
  {
    if |q| > 0 {
      var front, last := q[..|q| - 1], q[|q| - 1];
      WithoutDistinct(front, c);
      WithoutMember(front, c, last);
      assert last !in front;
      var w := Without(front, c);
      assert last !in w;
    }
  }

  lemma {:induction false} FlaggedSame(cl: Clients, cm: Clients, q: seq<Id>)
    requires forall c :: c in q ==> (c in cl <==> c in cm) && (c in cl ==> cl[c].nokey == cm[c].nokey)
    ensures Flagged(cl, q) == Flagged(cm, q)
  {
    if |q| > 0 {
      FlaggedSame(cl, cm, q[..|q| - 1]);
    }
  }

  lemma {:induction false} FlaggedWithout(cl: Clients, q: seq<Id>, c: Id)
    requires Distinct(q) && c in q && c in cl
    ensures Flagged(cl, q) == Flagged(cl, Without(q, c)) + if cl[c].nokey then 1 else 0
  {
    var front, last := q[..|q| - 1], q[|q| - 1];
    assert q == front + [last];
    if last == c {
      assert c !in front;
      WithoutAbsent(front, c);
      assert front + [] == front;
    } else {
      FlaggedWithout(cl, front, c);
      var w := Without(front, c);
      assert Without(q, c) == w + [last] && (w + [last])[..|w|] == w;
    }
  }

  lemma FlaggedMore(cl: Clients, q: seq<Id>, c: Id)
    ensures Flagged(cl, q + [c]) == Flagged(cl, q) + if c in cl && cl[c].nokey then 1 else 0
  {
    assert (q + [c])[..|q|] == q;
  }

  /** A client that starts to wait for one more key. */
  function Waits(cl: Clients, c: Id, k: Key): Clients
    requires c in cl
  {
    cl[c := cl[c].(keys := cl[c].keys + {k})]
  }

  function Leaves(cl: Clients, c: Id, k: Key): Clients
    requires c in cl
  {
    cl[c := cl[c].(keys := cl[c].keys - {k})]
  }

  lemma AddTwoWay(cl: Clients, b: Queues, c: Id, k: Key)
    requires TwoWay(cl, b) && c in cl && k !in cl[c].keys
    ensures TwoWay(Waits(cl, c, k), b[k := Queue(b, k) + [c]])
  {
    var q, bb, cm := Queue(b, k), b[k := Queue(b, k) + [c]], Waits(cl, c, k);
    assert c !in q;
    forall j, d ensures d in Queue(bb, j) <==> d in cm && j in cm[d].keys {
      assert d in Queue(b, j) <==> d in cl && j in cl[d].keys;
    }
  }

  lemma AddCounts(cl: Clients, b: Queues, n: Counts, c: Id, k: Key)
    requires Index(cl, b, n) && c in cl && k !in cl[c].keys
    ensures NoKeyCounts(Waits(cl, c, k), b[k := Queue(b, k) + [c]], if cl[c].nokey then n[k := Count(n, k) + 1] else n)
  {
    var bb, cm := b[k := Queue(b, k) + [c]], Waits(cl, c, k);
    var m := if cl[c].nokey then n[k := Count(n, k) + 1] else n;
    forall j ensures Count(m, j) == Flagged(cm, Queue(bb, j)) {
      FlaggedSame(cl, cm, Queue(b, j));
      if j == k {
        FlaggedMore(cm, Queue(b, k), c);
      }
    }
  }

  /** Queueing a client for a key keeps the index. */
  lemma AddEntry(cl: Clients, b: Queues, n: Counts, c: Id, k: Key)
    requires Index(cl, b, n) && c in cl && k !in cl[c].keys
    ensures Index(Waits(cl, c, k), b[k := Queue(b, k) + [c]], if cl[c].nokey then n[k := Count(n, k) + 1] else n)
  {
    AddTwoWay(cl, b, c, k);
    AddCounts(cl, b, n, c, k);
  }

  /** The queues after a client has left one of them; an empty queue goes. */
  function Released(b: Queues, c: Id, k: Key): Queues {
    var q := Without(Queue(b, k), c);
    if |q| == 0 then b - {k} else b[k := q]
  }

  function ReleasedCounts(b: Queues, n: Counts, c: Id, k: Key, flag: bool): Counts {
    if |Without(Queue(b, k), c)| == 0 || (flag && Count(n, k) == 1) then n - {k}
    else if flag && k in n && n[k] > 0 then n[k := n[k] - 1]
    else n
  }

  lemma RemoveTwoWay(cl: Clients, b: Queues, c: Id, k: Key)
    requires TwoWay(cl, b) && c in cl && k in cl[c].keys
    ensures TwoWay(Leaves(cl, c, k), Released(b, c, k))
    ensures forall j :: Queue(Released(b, c, k), j) == if j == k then Without(Queue(b, k), c) else Queue(b, j)
  {
    var bb, cm := Released(b, c, k), Leaves(cl, c, k);
    WithoutDistinct(Queue(b, k), c);
    forall j, d ensures d in Queue(bb, j) <==> d in cm && j in cm[d].keys {
      assert d in Queue(b, j) <==> d in cl && j in cl[d].keys;
      WithoutMember(Queue(b, k), c, d);
    }
  }

  lemma RemoveCounts(cl: Clients, b: Queues, n: Counts, c: Id, k: Key)
    requires Index(cl, b, n) && c in cl && k in cl[c].keys
    ensures NoKeyCounts(Leaves(cl, c, k), Released(b, c, k), ReleasedCounts(b, n, c, k, cl[c].nokey))
    ensures cl[c].nokey ==> k in n
  {
    var bb, cm := Released(b, c, k), Leaves(cl, c, k);
    var q, m := Queue(b, k), ReleasedCounts(b, n, c, k, cl[c].nokey);
    RemoveTwoWay(cl, b, c, k);
    assert c in q;
    FlaggedWithout(cl, q, c);
    forall j ensures Count(m, j) == Flagged(cm, Queue(bb, j)) {
      FlaggedSame(cl, cm, Queue(bb, j));
    }
  }

  /** Releasing one entry keeps the index. */
  lemma RemoveEntry(cl: Clients, b: Queues, n: Counts, c: Id, k: Key)
    requires Index(cl, b, n) && c in cl && k in cl[c].keys
    ensures Index(Leaves(cl, c, k), Released(b, c, k), ReleasedCounts(b, n, c, k, cl[c].nokey))
    ensures cl[c].nokey ==> k in n
  {
    RemoveTwoWay(cl, b, c, k);
    RemoveCounts(cl, b, n, c, k);
  }

  /** A change to a client that keeps its keys, and its flag if it waits for any, keeps the index. */
  lemma OtherFields(cl: Clients, b: Queues, n: Counts, c: Id, x: Client)
    requires Index(cl, b, n) && c in cl && x.keys == cl[c].keys && (x.nokey == cl[c].nokey || x.keys == {})
    ensures Index(cl[c := x], b, n)
  {
    var cm := cl[c := x];
    forall j, d ensures d in Queue(b, j) <==> d in cm && j in cm[d].keys {
      assert d in Queue(b, j) <==> d in cl && j in cl[d].keys;
    }
    forall j ensures Count(n, j) == Flagged(cm, Queue(b, j)) {
      assert c in Queue(b, j) <==> j in cl[c].keys;
      FlaggedSame(cl, cm, Queue(b, j));
    }
  }

  // ------------------------------------------------------------------------------
  // Counters
  // ------------------------------------------------------------------------------

  ghost function OfType(cl: Clients, t: BType): set<Id> {
    set c | c in cl && cl[c].blocked && cl[c].btype == t
  }

  ghost function AllBlocked(cl: Clients): set<Id> {
    set c | c in cl && cl[c].blocked
  }

  /** The counters are the numbers of blocked clients. */
  ghost predicate Counters(cl: Clients, byType: map<BType, nat>, total: nat) {
    && (forall t: BType :: t in byType && byType[t] == |OfType(cl, t)|)
    && total == |AllBlocked(cl)|
  }

  lemma SetsMore(cl: Clients, c: Id, x: Client, t: BType)
    requires c in cl && !cl[c].blocked && x.blocked
    ensures AllBlocked(cl[c := x]) == AllBlocked(cl) + {c} && c !in AllBlocked(cl)
    ensures OfType(cl[c := x], t) == (if t == x.btype then OfType(cl, t) + {c} else OfType(cl, t)) &&
              c !in OfType(cl, t)
  {}

  lemma OneMore(cl: Clients, c: Id, x: Client, t: BType)
    requires c in cl && !cl[c].blocked && x.blocked
    ensures |OfType(cl[c := x], t)| == |OfType(cl, t)| + if t == x.btype then 1 else 0
    ensures |AllBlocked(cl[c := x])| == |AllBlocked(cl)| + 1
  {
    hide OfType, AllBlocked;
    SetsMore(cl, c, x, t);
  }

  lemma CountBlock(cl: Clients, byType: map<BType, nat>, total: nat, c: Id, x: Client)
    requires Counters(cl, byType, total) && c in cl && !cl[c].blocked && x.blocked
    ensures Counters(cl[c := x], byType[x.btype := byType[x.btype] + 1], total + 1)
  {
    hide OfType, AllBlocked;
    OneMore(cl, c, x, x.btype);
    forall t: BType {
      OneMore(cl, c, x, t);
    }
  }

  lemma CountUnblock(cl: Clients, byType: map<BType, nat>, total: nat, c: Id, x: Client)
    requires Counters(cl, byType, total) && c in cl && cl[c].blocked && !x.blocked
    ensures total > 0 && cl[c].btype in byType && byType[cl[c].btype] > 0
    ensures Counters(cl[c := x], byType[cl[c].btype := byType[cl[c].btype] - 1], total - 1)
  {
    hide OfType, AllBlocked;
    var cm := cl[c := x];
    assert cm[c := cl[c]] == cl;
    OneMore(cm, c, cl[c], cl[c].btype);
    forall t: BType {
      OneMore(cm, c, cl[c], t);
    }
  }

  lemma CountOther(cl: Clients, byType: map<BType, nat>, total: nat, c: Id, x: Client)
    requires Counters(cl, byType, total) && c in cl && x.blocked == cl[c].blocked && x.btype == cl[c].btype
    ensures Counters(cl[c := x], byType, total)
  {
    var cm := cl[c := x];
    assert AllBlocked(cl) == AllBlocked(cm);
    forall t: BType ensures OfType(cl, t) == OfType(cm, t) {}
  }

  // ------------------------------------------------------------------------------
  // The rest of the invariant
  // ------------------------------------------------------------------------------

  /** The fields of one client fit together. */
  predicate SaneClient(x: Client) {
    && (x.blocked <==> x.btype != NoBlock)
    && (x.keys != {} ==> OnKeys(x.btype))
    && (x.nokey ==> x.blocked)
    && (OnKeys(x.btype) ==> x.pending)
  }

  predicate Sane(cl: Clients) {
    forall c :: c in cl ==> SaneClient(cl[c])
  }

  predicate DistinctKeys(q: seq<Key>) {
    forall i, j :: 0 <= i < j < |q| ==> q[i] != q[j]
  }

  /** A key is in the dictionary exactly when it is queued, and then once. */
  ghost predicate ReadyOk(dict: set<Key>, list: seq<Key>) {
    DistinctKeys(list) && forall k :: k in dict <==> k in list
  }

  /** A client is in the list of unblocked clients exactly when it is flagged, and then once. */
  ghost predicate RequeueOk(cl: Clients, list: seq<Id>) {
    Distinct(list) && forall c :: c in list <==> c in cl && cl[c].queued
  }

  lemma RequeueKept(cl: Clients, list: seq<Id>, c: Id, x: Client)
    requires RequeueOk(cl, list) && c in cl && x.queued == cl[c].queued
    ensures RequeueOk(cl[c := x], list)
  {}

  ghost predicate Core(cl: Clients, b: Queues, n: Counts, byType: map<BType, nat>, total: nat, list: seq<Id>) {
    Index(cl, b, n) && Counters(cl, byType, total) && RequeueOk(cl, list)
  }

  /** Changes to a client that do not concern the index, the counters or the list. */
  lemma CoreKept(cl: Clients, b: Queues, n: Counts, byType: map<BType, nat>, total: nat, list: seq<Id>, c: Id,
                 x: Client)
    requires Core(cl, b, n, byType, total, list) && c in cl && x.keys == cl[c].keys &&
               (x.nokey == cl[c].nokey || x.keys == {})
    requires x.blocked == cl[c].blocked && x.btype == cl[c].btype && x.queued == cl[c].queued
    ensures Core(cl[c := x], b, n, byType, total, list)
  {
    hide Index, Counters, RequeueOk;
    OtherFields(cl, b, n, c, x);
    CountOther(cl, byType, total, c, x);
    RequeueKept(cl, list, c, x);
  }

  function KeySet(keys: seq<Key>): (r: set<Key>)
    ensures forall k :: k in r <==> k in keys
  {
    set k | k in keys
  }

  /** A signal: the type of the key's value, and whether the key was deleted. */
  datatype Signal = Signal(key: Key, btype: BType, deleted: bool)

  /** How a command ends: it finishes, it blocks on keys, or the client is blocked for another
      reason, for example because commands are paused. */
  datatype Again = Finished | BlocksOn(btype: BType, keys: seq<Key>, nokey: bool) | BlocksElse(btype: BType)

  /** What a command does when it is run: it signals keys, and finishes or blocks. */
  datatype Outcome = Outcome(signals: seq<Signal>, again: Again)

  /** What is found under a key. */
  datatype Lookup = Missing | Present(btype: BType)

  predicate Matches(x: Client, o: Lookup) {
    (o.Present? && x.btype == o.btype) || x.nokey
  }

  class Server {
    var clients: Clients
    var blocking: Queues         // blocking_keys
    var nokey: Counts            // blocking_keys_unblock_on_nokey
    var readyDict: set<Key>      // ready_keys of the databases
    var readyList: seq<Key>      // server.ready_keys
    var work: seq<Key>           // the list being handled
    var unblocked: seq<Id>       // server.unblocked_clients
    var byType: map<BType, nat>  // blocked_clients_by_type
    var total: nat               // blocked_clients

    /** All the structures describe one relation. */
    ghost predicate Valid()
      reads this
    {
      && Sane(clients) && Core(clients, blocking, nokey, byType, total, unblocked)
      && ReadyOk(readyDict, work + readyList)
    }

    /** `blockClient`. */
    method BlockClient(c: Id, t: BType)
      requires c in clients && !clients[c].blocked && t != NoBlock && Counters(clients, byType, total)
      modifies `clients, `byType, `total
      ensures clients == old(clients)[c := old(clients)[c].(blocked := true, btype := t)]
      ensures Counters(clients, byType, total)
    {
      CountBlock(clients, byType, total, c, clients[c].(blocked := true, btype := t));
      clients := clients[c := clients[c].(blocked := true, btype := t)];
      total := total + 1;
      byType := byType[t := byType[t] + 1];
    }

    /** One more key of `blockForKeys`. */
    method AddKey(c: Id, k: Key, flag: bool)
      requires c in clients && k !in clients[c].keys
      requires Index(clients[c := clients[c].(nokey := flag)], blocking, nokey)
      modifies `clients, `blocking, `nokey
      ensures clients == Waits(old(clients), c, k)
      ensures Index(clients[c := clients[c].(nokey := flag)], blocking, nokey)
      ensures blocking == old(blocking)[k := Queue(old(blocking), k) + [c]]
    {
      hide Index;
      ghost var virtual := clients[c := clients[c].(nokey := flag)];
      AddEntry(virtual, blocking, nokey, c, k);
      WaitsFlag(clients, c, k, flag);
      clients := Waits(clients, c, k);
      hide Waits;
      var l := if k in blocking then blocking[k] else [];
      blocking := blocking[k := l + [c]];
      if flag {
        nokey := nokey[k := if k in nokey then nokey[k] + 1 else 1];
      }
    }

    /** The loop of `blockForKeys`. */
    method AddKeys(c: Id, keys: seq<Key>, flag: bool)
      requires c in clients && clients[c].keys == {}
      requires Index(clients[c := clients[c].(nokey := flag)], blocking, nokey)
      modifies `clients, `blocking, `nokey
      ensures clients == old(clients)[c := old(clients)[c].(keys := KeySet(keys))]
      ensures Index(clients[c := clients[c].(nokey := flag)], blocking, nokey)
      ensures forall k :: Queue(blocking, k) == Queue(old(blocking), k) + if k in keys then [c] else []
    {
      hide Index, Queue;
      ghost var x := clients[c];
      assert keys[..0] == [] && KeySet([]) == {} && clients == clients[c := x.(keys := {})];
      var j := 0;
      while j < |keys|
        invariant 0 <= j <= |keys|
        invariant clients == old(clients)[c := x.(keys := KeySet(keys[..j]))]
        invariant Index(clients[c := clients[c].(nokey := flag)], blocking, nokey)
        invariant forall k :: Queue(blocking, k) == Queue(old(blocking), k) + if k in keys[..j] then [c] else []
      {
        KeySetNext(keys, j);
        if keys[j] !in clients[c].keys {
          ghost var b := blocking;
          AddKey(c, keys[j], flag);
          QueueAdd(b, keys[j], c);
          UpdateTwice(old(clients), c, x.(keys := KeySet(keys[..j])), x.(keys := KeySet(keys[..j + 1])));
        }
        j := j + 1;
      }
      assert keys[..j] == keys;
    }

    /** `blockForKeys`: the client goes to the end of every key's queue. */
    method BlockForKeys(c: Id, t: BType, keys: seq<Key>, flag: bool)
      requires Valid() && c in clients && !clients[c].blocked && OnKeys(t)
      modifies `clients, `blocking, `nokey, `byType, `total
      ensures Valid()
      ensures clients == old(clients)[c := Client(t, true, old(clients)[c].queued, true, KeySet(keys), flag)]
      ensures forall k :: Queue(blocking, k) == Queue(old(blocking), k) + if k in keys then [c] else []
      ensures unblocked == old(unblocked) && readyDict == old(readyDict) && readyList == old(readyList)
    {
      hide Core, ReadyOk, Queue, KeySet;
      assert SaneClient(clients[c]);
      ghost var x := clients[c];
      ghost var y := x.(keys := KeySet(keys), nokey := flag, pending := true);
      WaitOn(c, keys, flag);
      BlockCore(c, t);
      UpdateTwice(old(clients), c, y, y.(blocked := true, btype := t));
    }

    /** The keys, the flag for deletions, and the pending command. */
    method WaitOn(c: Id, keys: seq<Key>, flag: bool)
      requires Core(clients, blocking, nokey, byType, total, unblocked) && c in clients && clients[c].keys == {}
      modifies `clients, `blocking, `nokey
      ensures Core(clients, blocking, nokey, byType, total, unblocked)
      ensures clients == old(clients)[c := old(clients)[c].(keys := KeySet(keys), nokey := flag, pending := true)]
      ensures forall k :: Queue(blocking, k) == Queue(old(blocking), k) + if k in keys then [c] else []
    {
      hide Index, Counters, RequeueOk, Queue, KeySet;
      ghost var x := clients[c];
      OtherFields(clients, blocking, nokey, c, x.(nokey := flag));
      AddKeys(c, keys, flag);
      ghost var y := x.(keys := KeySet(keys), nokey := flag, pending := true);
      clients := clients[c := clients[c].(nokey := flag)];
      OtherFields(clients, blocking, nokey, c, y);
      clients := clients[c := clients[c].(pending := true)];
      UpdateTwice(old(clients), c, x.(keys := KeySet(keys)), x.(keys := KeySet(keys), nokey := flag));
      UpdateTwice(old(clients), c, x.(keys := KeySet(keys), nokey := flag), y);
      CountOther(old(clients), byType, total, c, y);
      RequeueKept(old(clients), unblocked, c, y);
    }

    method BlockCore(c: Id, t: BType)
      requires Core(clients, blocking, nokey, byType, total, unblocked)
      requires c in clients && !clients[c].blocked && t != NoBlock
      modifies `clients, `byType, `total
      ensures Core(clients, blocking, nokey, byType, total, unblocked)
      ensures clients == old(clients)[c := old(clients)[c].(blocked := true, btype := t)]
    {
      hide Index, Counters, RequeueOk;
      ghost var z := clients[c].(blocked := true, btype := t);
      OtherFields(clients, blocking, nokey, c, z);
      RequeueKept(clients, unblocked, c, z);
      BlockClient(c, t);
    }

    /** `releaseBlockedEntry`; `ks` are the keys of the client not released yet. */
    method ReleaseEntry(c: Id, k: Key, removeKey: bool, ghost ks: set<Key>)
      requires c in clients && k in ks && Index(clients[c := clients[c].(keys := ks)], blocking, nokey)
      modifies `clients, `blocking, `nokey
      ensures clients == if removeKey then Leaves(old(clients), c, k) else old(clients)
      ensures Index(old(clients)[c := old(clients)[c].(keys := ks - {k})], blocking, nokey)
      ensures blocking == Released(old(blocking), c, k)
    {
      ghost var virtual := clients[c := clients[c].(keys := ks)];
      EntryThere(virtual, blocking, nokey, c, k);
      RemoveEntry(virtual, blocking, nokey, c, k);
      LeavesKeys(clients, c, k, ks);
      hide Index, Flagged;
      var l := Without(blocking[k], c);
      if |l| == 0 {
        blocking := blocking - {k};
        nokey := nokey - {k};
      } else {
        blocking := blocking[k := l];
        if clients[c].nokey {
          assert k in nokey;
          if nokey[k] - 1 == 0 {
            nokey := nokey - {k};
          } else {
            nokey := nokey[k := nokey[k] - 1];
          }
        }
      }
      if removeKey {
        clients := Leaves(clients, c, k);
      }
    }

    /** `unblockClientWaitingData`: the client leaves the queues of all its keys. */
    method UnblockWaitingData(c: Id)
      requires c in clients && Index(clients, blocking, nokey)
      modifies `clients, `blocking, `nokey
      ensures clients == old(clients)[c := old(clients)[c].(keys := {})]
      ensures Index(clients, blocking, nokey)
      ensures forall k :: Queue(blocking, k) == Without(Queue(old(blocking), k), c)
    {
      ghost var gone, all: set<Key> := {}, clients[c].keys;
      assert clients[c := clients[c].(keys := clients[c].keys)] == clients;
      NoneDropped(blocking, c);
      var todo := clients[c].keys;
      assert Halves(all, todo, gone);
      hide Index, Dropped, Released, Halves;
      while todo != {}
        invariant Halves(all, todo, gone) && clients == old(clients)
        invariant Index(clients[c := clients[c].(keys := todo)], blocking, nokey)
        invariant Dropped(old(blocking), blocking, c, gone)
        decreases todo
      {
        var k :| k in todo;
        HalvesNext(all, todo, gone, k);
        DroppedNext(old(blocking), blocking, c, gone, k);
        ReleaseEntry(c, k, false, todo);
        todo, gone := todo - {k}, gone + {k};
      }
      HalvesEnd(all, gone);
      AllDropped(old(clients), old(blocking), old(nokey), c, blocking);
      clients := clients[c := clients[c].(keys := {})];
    }

    /** `queueClientForReprocessing`. */
    method QueueForReprocessing(c: Id)
      requires c in clients && RequeueOk(clients, unblocked)
      modifies `clients, `unblocked
      ensures clients == old(clients)[c := old(clients)[c].(queued := true)]
      ensures unblocked == if old(clients)[c].queued then old(unblocked) else old(unblocked) + [c]
      ensures RequeueOk(clients, unblocked)
    {
      if !clients[c].queued {
        assert c !in unblocked;
        clients := clients[c := clients[c].(queued := true)];
        unblocked := unblocked + [c];
      } else {
        assert clients[c := clients[c].(queued := true)] == clients;
      }
    }

    /** `unblockClient`. */
    method UnblockClient(c: Id, requeue: bool)
      requires c in clients && clients[c].blocked && (clients[c].keys != {} ==> OnKeys(clients[c].btype))
      requires Core(clients, blocking, nokey, byType, total, unblocked)
      modifies `clients, `blocking, `nokey, `byType, `total, `unblocked
      ensures Core(clients, blocking, nokey, byType, total, unblocked)
      ensures clients == old(clients)[c := Freed(old(clients)[c], requeue)]
      ensures forall k :: Queue(blocking, k) == Without(Queue(old(blocking), k), c)
      ensures unblocked == if requeue && !old(clients)[c].queued then old(unblocked) + [c] else old(unblocked)
    {
      hide Index, Counters, RequeueOk;
      ghost var x := clients[c];
      if OnKeys(clients[c].btype) {
        UnblockWaitingData(c);
      } else {
        NoQueues(clients, blocking, nokey, c);
        assert clients == clients[c := x.(keys := {})];
      }
      ghost var y := x.(keys := {});
      CountOther(old(clients), byType, total, c, y);
      RequeueKept(old(clients), unblocked, c, y);
      ghost var z := y.(blocked := false, btype := NoBlock, nokey := false);
      CountUnblock(clients, byType, total, c, z);
      OtherFields(clients, blocking, nokey, c, z);
      RequeueKept(clients, unblocked, c, z);
      total := total - 1;
      byType := byType[clients[c].btype := byType[clients[c].btype] - 1];
      clients := clients[c := clients[c].(blocked := false, btype := NoBlock, nokey := false)];
      UpdateTwice(old(clients), c, y, z);
      if requeue {
        OtherFields(clients, blocking, nokey, c, z.(queued := true));
        CountOther(clients, byType, total, c, z.(queued := true));
        QueueForReprocessing(c);
        UpdateTwice(old(clients), c, z, z.(queued := true));
      }
    }

    /** `unblockClientOnTimeout` and `unblockClientOnError`. */
    method UnblockEarly(c: Id)
      requires Valid() && c in clients && clients[c].blocked
      modifies `clients, `blocking, `nokey, `byType, `total, `unblocked
      ensures Valid()
      ensures clients == old(clients)[c := Client(NoBlock, false, true, false, {}, false)]
      ensures forall k :: Queue(blocking, k) == Without(Queue(old(blocking), k), c)
      ensures unblocked == if old(clients)[c].queued then old(unblocked) else old(unblocked) + [c]
    {
      hide Core, ReadyOk;
      assert SaneClient(clients[c]);
      ghost var y := clients[c].(pending := false);
      CoreKept(clients, blocking, nokey, byType, total, unblocked, c, y);
      clients := clients[c := clients[c].(pending := false)];
      UnblockClient(c, true);
      UpdateTwice(old(clients), c, y, Freed(y, true));
    }

    /** `signalKeyAsReadyLogic`: a key is queued exactly if it is not queued yet and the signal
        matters to some client. */
    method SignalKey(g: Signal)
      requires Valid()
      modifies `readyDict, `readyList
      ensures Valid()
      ensures if g.key !in old(readyDict) && Concerned(clients, g)
              then readyDict == old(readyDict) + {g.key} && readyList == old(readyList) + [g.key]
              else readyDict == old(readyDict) && readyList == old(readyList)
    {
      Waiting(clients, blocking, nokey, byType, total, g);
      hide Core, Concerned;
      if g.btype == NoBlock || byType[g.btype] == 0 {
        return;
      }
      if g.deleted {
        if g.key !in nokey {
          return;
        }
      } else if g.key !in blocking {
        return;
      }
      if g.key in readyDict {
        return;
      }
      readyDict := readyDict + {g.key};
      readyList := readyList + [g.key];
      assert work + readyList == (work + old(readyList)) + [g.key];
    }

    /** A command that is run: it signals keys, then finishes or blocks. */
    method RunCommand(c: Id, o: Outcome)
      requires Valid() && c in clients && !clients[c].blocked && Runnable(o.again)
      modifies this
      ensures Valid() && work == old(work) && unblocked == old(unblocked)
      ensures Signalled(old(clients), old(readyDict), old(readyList), o.signals, readyDict, readyList)
      ensures clients == if o.again.Finished? then old(clients)
                else old(clients)[c := Blocking(old(clients)[c], o.again)]
      ensures forall k :: Queue(blocking, k) == Queue(old(blocking), k) + if BlocksOnKey(o.again, k) then [c] else []
    {
      hide Core, ReadyOk, Sane, Queue, Concerned, Signalled;
      var i := 0;
      NoSignals(clients, readyDict, readyList, o.signals);
      while i < |o.signals|
        invariant 0 <= i <= |o.signals| && Valid()
        invariant clients == old(clients) && blocking == old(blocking) && work == old(work) &&
                    unblocked == old(unblocked)
        invariant Signalled(clients, old(readyDict), old(readyList), o.signals[..i], readyDict, readyList)
      {
        SignalledNext(clients, old(readyDict), old(readyList), o.signals, i, readyDict, readyList);
        SignalKey(o.signals[i]);
        i := i + 1;
      }
      assert o.signals[..i] == o.signals;
      if o.again.BlocksOn? {
        BlockForKeys(c, o.again.btype, o.again.keys, o.again.nokey);
      } else if o.again.BlocksElse? {
        BlockOther(c, o.again.btype);
      }
    }

    /** `unblockClientOnKey`. */
    method Serve(c: Id, k: Key, o: Outcome)
      requires Valid() && c in clients && k in clients[c].keys && Runnable(o.again)
      modifies this
      ensures Valid() && work == old(work)
      ensures clients == old(clients)[c := AfterServe(old(clients)[c], o.again)]
      // a client that finishes waits for nothing any more and is queued for its next command ...
      ensures o.again.Finished? ==> clients[c] == Client(NoBlock, false, true, false, {}, false) && c in unblocked
      // ... one that blocks again waits for what its command asks for now
      ensures o.again.BlocksOn? ==>
                clients[c] == Client(o.again.btype, true, old(clients)[c].queued, true, KeySet(o.again.keys),
                    o.again.nokey)
      ensures o.again.BlocksElse? ==>
                clients[c] == Client(o.again.btype, true, old(clients)[c].queued, o.again.btype == OnPostpone, {},
                    false)
      ensures unblocked == if o.again.Finished? && !old(clients)[c].queued then old(unblocked) + [c] else old(unblocked)
      // the signals of the command are those of a client that is not blocked
      ensures var idle := old(clients)[c := Client(NoBlock, false, old(clients)[c].queued, false, {}, false)];
              Signalled(idle, old(readyDict), old(readyList), o.signals, readyDict, readyList)
      ensures forall j :: Queue(blocking, j) == Without(Queue(old(blocking), j), c) +
                if BlocksOnKey(o.again, j) then [c] else []
    {
      hide Core, ReadyOk, KeySet, Signalled, Concerned;
      ghost var x := clients[c];
      assert SaneClient(x);
      LeaveOne(c, k);
      ghost var y := x.(keys := x.keys - {k});
      ReleasedFirst(old(blocking), c, k);
      UnblockClient(c, false);
      ghost var z := Freed(y, false);
      UpdateTwice(old(clients), c, y, z);
      ghost var w := z.(pending := false);
      CoreKept(clients, blocking, nokey, byType, total, unblocked, c, w);
      clients := clients[c := clients[c].(pending := false)];
      UpdateTwice(old(clients), c, z, w);
      RunCommand(c, o);
      if !clients[c].blocked {
        Requeue(c);
        UpdateTwice(old(clients), c, w, w.(queued := true));
      } else {
        UpdateTwice(old(clients), c, w, Blocking(w, o.again));
      }
    }

    /** The client leaves one queue, and that key its set. */
    method LeaveOne(c: Id, k: Key)
      requires c in clients && k in clients[c].keys && Core(clients, blocking, nokey, byType, total, unblocked)
      modifies `clients, `blocking, `nokey
      ensures Core(clients, blocking, nokey, byType, total, unblocked)
      ensures clients == Leaves(old(clients), c, k) && blocking == Released(old(blocking), c, k)
    {
      hide Index, Counters, RequeueOk;
      ghost var x := clients[c];
      assert clients == clients[c := x.(keys := x.keys)];
      ReleaseEntry(c, k, true, x.keys);
      CountOther(old(clients), byType, total, c, x.(keys := x.keys - {k}));
      RequeueKept(old(clients), unblocked, c, x.(keys := x.keys - {k}));
    }

    method Requeue(c: Id)
      requires Core(clients, blocking, nokey, byType, total, unblocked) && c in clients
      modifies `clients, `unblocked
      ensures Core(clients, blocking, nokey, byType, total, unblocked)
      ensures clients == old(clients)[c := old(clients)[c].(queued := true)]
      ensures unblocked == if old(clients)[c].queued then old(unblocked) else old(unblocked) + [c]
      ensures c in unblocked
    {
      if clients[c].queued {
        Queued(clients, unblocked, c);
      }
      hide Index, Counters, RequeueOk;
      ghost var y := clients[c].(queued := true);
      OtherFields(clients, blocking, nokey, c, y);
      CountOther(clients, byType, total, c, y);
      QueueForReprocessing(c);
    }

    /** `handleClientsBlockedOnKey`: the clients that wait for the key are visited in the order in
        which they blocked, each at most once; `visits[i]` is what the i-th visit finds and does. */
    method HandleKey(k: Key, visits: seq<Visit>) returns (served: seq<Id>)
      requires Valid() && |visits| == |Queue(blocking, k)|
      requires forall i :: 0 <= i < |visits| ==> Runnable(visits[i].outcome.again)
      modifies this
      ensures Valid() && work == old(work)
      ensures served == Chosen(Queue(old(blocking), k), old(clients), visits, |visits|)
      ensures Queue(blocking, k) == Passed(Queue(old(blocking), k), old(clients), visits, |visits|) +
                                    Rejoined(Queue(old(blocking), k), old(clients), visits, k, |visits|)
      ensures clients.Keys == old(clients).Keys
      ensures forall c :: c in clients && c !in served ==> clients[c] == old(clients)[c]
      // exactly the clients that wait for deletions, or for the kind of value that is there, are served
      ensures Answered(Queue(old(blocking), k), old(clients), visits, served)
      ensures var q := Queue(old(blocking), k);
              forall i :: 0 <= i < |q| && q[i] in served ==>
                q[i] in clients && clients[q[i]] == AfterServe(old(clients)[q[i]], visits[i].outcome.again)
      // a key becomes ready only by a signal of a command that is run again
      ensures old(readyDict) <= readyDict && old(readyList) <= readyList
      ensures forall j :: j in readyDict ==> j in old(readyDict) || Mentioned(visits, j)
    {
      hide Core, ReadyOk, Sane, Handled, Succ, Queue, AfterServe, Matches, Runnable, Without, Answered, Calls,
          Mentioned;
      served := [];
      ghost var q, cl := Queue(blocking, k), clients;
      var count := |Queue(blocking, k)|;
      var next := First(Queue(blocking, k));
      ghost var i := 0;
      ValidQueue(clients, blocking, nokey, byType, total, unblocked, k);
      HandleStart(q, cl, visits, k);
      while next.Some?
        invariant 0 <= i <= |q| && count == |q| - i && Valid() && work == old(work)
        invariant old(readyDict) <= readyDict && old(readyList) <= readyList
        invariant forall j :: j in readyDict ==> j in old(readyDict) || Mentioned(visits, j)
        invariant Handled(q, cl, visits, k, i, Queue(blocking, k), clients, served)
        invariant i < |q| ==> next == Some(q[i])
        decreases count
      {
        var cur := next.value;
        next := Succ(Queue(blocking, k), cur);
        if count == 0 {
          break;
        }
        count := count - 1;
        ghost var now, cm := Queue(blocking, k), clients;
        ValidQueue(clients, blocking, nokey, byType, total, unblocked, k);
        HandleCurrent(q, cl, visits, k, i, now, cm, served);
        var visit := visits[|visits| - 1 - count];
        if Matches(clients[cur], visit.found) {
          MentionedCalls(visits, i);
          Serve(cur, k, visit.outcome);
          HandleServed(q, cl, visits, k, i, now, cm, served, clients[cur]);
          served := served + [cur];
        } else {
          HandlePassed(q, cl, visits, k, i, now, cm, served);
        }
        i := i + 1;
      }
      HandleEnd(q, cl, visits, k, Queue(blocking, k), clients, served);
    }

    /** `handleClientsBlockedOnKeys`: the ready keys become the list to work on. */
    method BeginHandling()
      requires Valid() && work == []
      modifies `work, `readyList
      ensures Valid() && work == old(readyList) && readyList == []
    {
      assert work + readyList == readyList + [];
      work, readyList := readyList, [];
    }

    /** One key of the list: it can be signalled again as soon as it is being handled. */
    method HandleNext(visits: seq<Visit>) returns (served: seq<Id>)
      requires Valid() && |work| > 0 && |visits| == |Queue(blocking, work[0])|
      requires forall i :: 0 <= i < |visits| ==> Runnable(visits[i].outcome.again)
      modifies this
      ensures Valid() && work == old(work)[1..]
      ensures served == Chosen(Queue(old(blocking), old(work)[0]), old(clients), visits, |visits|)
      ensures var k := old(work)[0];
              Queue(blocking, k) == Passed(Queue(old(blocking), k), old(clients), visits, |visits|) +
                                    Rejoined(Queue(old(blocking), k), old(clients), visits, k, |visits|)
      ensures clients.Keys == old(clients).Keys
      ensures forall c :: c in clients && c !in served ==> clients[c] == old(clients)[c]
      ensures Answered(Queue(old(blocking), old(work)[0]), old(clients), visits, served)
      ensures var q := Queue(old(blocking), old(work)[0]);
              forall i :: 0 <= i < |q| && q[i] in served ==>
                q[i] in clients && clients[q[i]] == AfterServe(old(clients)[q[i]], visits[i].outcome.again)
      ensures old(readyDict) - {old(work)[0]} <= readyDict && old(readyList) <= readyList
      ensures forall j :: j in readyDict ==> j in old(readyDict) - {old(work)[0]} || Mentioned(visits, j)
    {
      hide Core, Sane, Chosen, Passed, Rejoined, Queue, Runnable, Answered, AfterServe, Mentioned;
      var k := work[0];
      ReadyNext(readyDict, work, readyList);
      readyDict := readyDict - {k};
      work := work[1..];
      served := HandleKey(k, visits);
    }

    /** `processUnblockedClients`: the first client leaves the list, and runs what it has to run
        unless it is blocked again. */
    method ProcessUnblocked(o: Outcome) returns (c: Id)
      requires Valid() && |unblocked| > 0 && Runnable(o.again)
      modifies this
      ensures Valid() && c == old(unblocked)[0] && unblocked == old(unblocked)[1..] && work == old(work)
      ensures clients.Keys == old(clients).Keys && c in old(clients)
      ensures clients == old(clients)[c := Reprocessed(old(clients)[c], o.again)]
      // a client that is blocked again is only taken from the list, another one runs its command
      ensures old(clients)[c].blocked ==>
                && clients[c] == old(clients)[c].(queued := false)
                && readyDict == old(readyDict) && readyList == old(readyList)
      ensures !old(clients)[c].blocked ==>
                && Signalled(old(clients)[c := Client(NoBlock, false, false, false, {}, false)], old(readyDict),
                             old(readyList), o.signals, readyDict, readyList)
                && clients[c] == match o.again
                   case Finished => Client(NoBlock, false, false, false, {}, false)
                   case BlocksOn(t, keys, flag) => Client(t, true, false, true, KeySet(keys), flag)
                   case BlocksElse(t) => Client(t, true, false, t == OnPostpone, {}, false)
      ensures forall k :: Queue(blocking, k) == Queue(old(blocking), k) +
                                                if !old(clients)[c].blocked && BlocksOnKey(o.again, k) then [c] else []
    {
      hide Index, Counters, ReadyOk, Sane, Queue, Blocking, KeySet, Signalled;
      c := unblocked[0];
      assert c in unblocked;
      ghost var x := clients[c];
      IdleAgain(clients, c, o.again);
      ghost var y := x.(queued := false);
      OtherFields(clients, blocking, nokey, c, y);
      CountOther(clients, byType, total, c, y);
      RequeueNext(clients, unblocked);
      SaneOne(clients, c, y);
      unblocked := unblocked[1..];
      clients := clients[c := clients[c].(queued := false)];
      hide RequeueOk;
      if !clients[c].blocked {
        ghost var z := y.(pending := false);
        CoreKept(clients, blocking, nokey, byType, total, unblocked, c, z);
        SaneIdle(clients, c, z);
        clients := clients[c := clients[c].(pending := false)];
        UpdateTwice(old(clients), c, y, z);
        RunCommand(c, o);
        if !o.again.Finished? {
          UpdateTwice(old(clients), c, z, Blocking(z, o.again));
        }
      }
    }

    /** A client blocks for another reason: WAIT, WAITAOF, a postponed command or SHUTDOWN.  A
        postponed command stays pending. */
    method BlockOther(c: Id, t: BType)
      requires Valid() && c in clients && !clients[c].blocked && t != NoBlock && !OnKeys(t)
      modifies `clients, `byType, `total
      ensures Valid() && clients == old(clients)[c := Blocking(old(clients)[c], BlocksElse(t))]
    {
      hide Core, ReadyOk;
      ghost var x := clients[c];
      assert SaneClient(x);
      BlockCore(c, t);
      if t == OnPostpone {
        ghost var y := x.(blocked := true, btype := t);
        CoreKept(clients, blocking, nokey, byType, total, unblocked, c, y.(pending := true));
        clients := clients[c := clients[c].(pending := true)];
        UpdateTwice(old(clients), c, y, y.(pending := true));
      }
    }

    /** `unblockPostponedClients`, for one client: its command is still pending. */
    method UnblockPostponed(c: Id)
      requires Valid() && c in clients && clients[c].btype == OnPostpone
      modifies `clients, `blocking, `nokey, `byType, `total, `unblocked
      ensures Valid()
      ensures clients == old(clients)[c := Client(NoBlock, false, true, old(clients)[c].pending, {}, false)]
      ensures forall k :: Queue(blocking, k) == Without(Queue(old(blocking), k), c)
      ensures unblocked == if old(clients)[c].queued then old(unblocked) else old(unblocked) + [c]
    {
      hide Core, ReadyOk;
      assert SaneClient(clients[c]);
      UnblockClient(c, true);
    }

    /** `freeClient`: a client that goes away leaves all queues and lists. */
    method Disconnect(c: Id)
      requires Valid() && c in clients
      modifies `clients, `blocking, `nokey, `byType, `total, `unblocked
      ensures Valid() && clients == old(clients) - {c} && unblocked == Without(old(unblocked), c)
      ensures forall k :: Queue(blocking, k) == Without(Queue(old(blocking), k), c)
    {
      hide Core, ReadyOk, Without;
      assert SaneClient(clients[c]);
      LeaveQueues(c);
      DisconnectKeeps(clients, blocking, nokey, byType, total, unblocked, c);
      SaneLess(clients, c);
      unblocked := Without(unblocked, c);
      clients := clients - {c};
    }

    /** A client that may be blocked is unblocked. */
    method LeaveQueues(c: Id)
      requires Valid() && c in clients
      modifies `clients, `blocking, `nokey, `byType, `total, `unblocked
      ensures Valid() && c in clients && !clients[c].blocked && clients - {c} == old(clients) - {c}
      ensures Without(unblocked, c) == Without(old(unblocked), c)
      ensures forall k :: Queue(blocking, k) == Without(Queue(old(blocking), k), c)
    {
      hide Core, ReadyOk, Without;
      assert SaneClient(clients[c]);
      if clients[c].blocked {
        WithoutMore(unblocked, c);
        UnblockClient(c, true);
      } else {
        CoreNoQueues(clients, blocking, nokey, byType, total, unblocked, c);
      }
    }

    /** A new client. */
    method Connect(c: Id)
      requires Valid() && c !in clients
      modifies `clients
      ensures Valid() && clients == old(clients)[c := Client(NoBlock, false, false, false, {}, false)]
    {
      hide ReadyOk;
      ConnectKeeps(clients, blocking, nokey, byType, total, unblocked, c);
      clients := clients[c := Client(NoBlock, false, false, false, {}, false)];
    }

    constructor ()
      ensures Valid() && clients == map[] && unblocked == [] && work == [] && readyList == []
    {
      clients, blocking, nokey, readyDict, readyList, work, unblocked, total := map[], map[], map[], {}, [], [], [], 0;
      byType := map[NoBlock := 0, OnList := 0, OnZset := 0, OnStream := 0, OnWait := 0, OnWaitAof := 0,
          OnPostpone := 0, OnShutdown := 0];
      new;
      forall t: BType ensures t in byType && byType[t] == |OfType(map[], t)| {
        assert OfType(map[], t) == {};
        match t {
          case NoBlock => case OnList => case OnZset => case OnStream =>
          case OnWait => case OnWaitAof => case OnPostpone => case OnShutdown =>
        }
      }
      assert AllBlocked(map[]) == {};
    }

    predicate Possible(e: Event)
      reads this
    {
      match e
      case NewClient(c) => c !in clients
      case Blocks(c, t, keys, flag) => c in clients && !clients[c].blocked && OnKeys(t)
      case BlocksApart(c, t) => c in clients && !clients[c].blocked && t != NoBlock && !OnKeys(t)
      case Touch(g) => true
      case TimeOut(c) => c in clients && clients[c].blocked
      case Resumes(c) => c in clients && clients[c].btype == OnPostpone
      case Closes(c) => c in clients
      case Begin => work == []
      case Next(visits) =>
        && |work| > 0 && |visits| == |Queue(blocking, work[0])|
        && forall i :: 0 <= i < |visits| ==> Runnable(visits[i].outcome.again)
      case Process(o) => |unblocked| > 0 && Runnable(o.again)
    }

    method Step(e: Event)
      requires Valid() && Possible(e)
      modifies this
      ensures Valid() && clients.Keys == Connected([e], old(clients).Keys)
      ensures e.Blocks? ==>
                && e.c in clients && clients[e.c].blocked && clients[e.c].btype == e.t
                && clients[e.c].keys == KeySet(e.keys)
      ensures e.BlocksApart? ==> e.c in clients && clients[e.c].blocked && clients[e.c].btype == e.t
      ensures e.Touch? && Concerned(clients, e.g) ==> e.g.key in readyDict
      ensures e.TimeOut? || e.Resumes? ==> e.c in clients && !clients[e.c].blocked && clients[e.c].queued
      ensures e.Begin? ==> work == old(readyList)
      ensures e.Next? ==> work == old(work)[1..]
      ensures e.Process? ==> unblocked == old(unblocked)[1..]
    {
      ConnectedOne(e, clients.Keys);
      hide Core, ReadyOk, Sane, Queue, Runnable, Concerned, Connected, KeySet, AfterServe, Signalled, Answered, Chosen,
        Passed, Rejoined, Reprocessed, Mentioned;
      match e
      case NewClient(c) => Connect(c);
      case Blocks(c, t, keys, flag) => BlockForKeys(c, t, keys, flag);
      case BlocksApart(c, t) => BlockOther(c, t);
      case Touch(g) => SignalKey(g);
      case TimeOut(c) => UnblockEarly(c);
      case Resumes(c) => UnblockPostponed(c);
      case Closes(c) => Disconnect(c);
      case Begin => BeginHandling();
      case Next(visits) => var served := HandleNext(visits);
      case Process(o) => var c := ProcessUnblocked(o);
    }

    /** Every run of connecting, blocking, signalling, serving, timing out and reprocessing, in
        any order, keeps all the structures describing one relation. */
    method Run(events: seq<Event>)
      requires Valid()
      modifies this
      ensures Valid() && clients.Keys == Connected(events, old(clients).Keys)
      ensures forall k, c :: c in Queue(blocking, k) <==> c in clients && k in clients[c].keys
      ensures forall k :: Count(nokey, k) == Flagged(clients, Queue(blocking, k))
      ensures (forall t: BType :: t in byType && byType[t] == |OfType(clients, t)|) && total == |AllBlocked(clients)|
      ensures forall k :: k in readyDict <==> k in work + readyList
      ensures forall i, j :: 0 <= i < j < |work + readyList| ==> (work + readyList)[i] != (work + readyList)[j]
    {
      var i := 0;
      while i < |events|
        invariant 0 <= i <= |events| && Valid()
        invariant clients.Keys == Connected(events[..i], old(clients).Keys)
      {
        hide Core, ReadyOk, Sane, Connected;
        ConnectedNext(events, i, old(clients).Keys);
        ConnectedOne(events[i], clients.Keys);
        if Possible(events[i]) {
          Step(events[i]);
        }
        i := i + 1;
      }
      assert events[..i] == events;
    }
  }

  datatype Event =
    | NewClient(c: Id)
    | Blocks(c: Id, t: BType, keys: seq<Key>, flag: bool)
    | BlocksApart(c: Id, t: BType)
    | Touch(g: Signal)
    | TimeOut(c: Id)
    | Resumes(c: Id)
    | Closes(c: Id)
    | Begin
    | Next(visits: seq<Visit>)
    | Process(o: Outcome)

  /** The clients that are connected after some events. */
  ghost function Connected(events: seq<Event>, start: set<Id>): set<Id> {
    if |events| == 0 then start
    else
      var e, before := events[|events| - 1], Connected(events[..|events| - 1], start);
      if e.NewClient? then before + {e.c} else if e.Closes? then before - {e.c} else before
  }

  lemma ConnectedOne(e: Event, start: set<Id>)
    ensures Connected([e], start) ==
            if e.NewClient? then start + {e.c} else if e.Closes? then start - {e.c} else start
  {
    assert [e][..0] == [];
  }

  lemma ConnectedNext(events: seq<Event>, n: nat, start: set<Id>)
    requires n < |events|
    ensures Connected(events[..n + 1], start) == Connected([events[n]], Connected(events[..n], start))
  {
    ConnectedOne(events[n], Connected(events[..n], start));
    assert events[..n + 1][..n] == events[..n];
  }

  lemma ReadyNext(dict: set<Key>, work: seq<Key>, list: seq<Key>)
    requires |work| > 0 && ReadyOk(dict, work + list)
    ensures ReadyOk(dict - {work[0]}, work[1..] + list)
  {
    var a, b := work + list, work[1..] + list;
    assert a == [work[0]] + b;
    forall i, j | 0 <= i < j < |b| ensures b[i] != b[j] {
      assert a[i + 1] == b[i] && a[j + 1] == b[j];
    }
    forall k ensures k in dict - {work[0]} <==> k in b {
      if k in b {
        var i :| 0 <= i < |b| && b[i] == k;
        assert a[0] != a[i + 1];
      }
    }
  }

  lemma Queued(cl: Clients, list: seq<Id>, c: Id)
    requires RequeueOk(cl, list) && c in cl && cl[c].queued
    ensures c in list
  {}

  lemma RequeueNext(cl: Clients, list: seq<Id>)
    requires |list| > 0 && RequeueOk(cl, list)
    ensures list[0] in cl && RequeueOk(cl[list[0] := cl[list[0]].(queued := false)], list[1..])
  {
    var c, rest := list[0], list[1..];
    assert list == [c] + rest && c in list;
    var cm := cl[c := cl[c].(queued := false)];
    forall i, j | 0 <= i < j < |rest| ensures rest[i] != rest[j] {
      assert rest[i] == list[i + 1] && rest[j] == list[j + 1];
    }
    forall d ensures d in rest <==> d in cm && cm[d].queued {
      assert d in list <==> d in cl && cl[d].queued;
      assert c !in rest;
    }
  }

  lemma SaneOne(cl: Clients, c: Id, x: Client)
    requires Sane(cl) && c in cl && x == cl[c].(queued := x.queued)
    ensures Sane(cl[c := x])
  {
    assert SaneClient(cl[c]);
  }

  lemma SaneIdle(cl: Clients, c: Id, x: Client)
    requires Sane(cl) && c in cl && !cl[c].blocked && x == cl[c].(pending := x.pending)
    ensures Sane(cl[c := x])
  {
    assert SaneClient(cl[c]);
  }

  lemma SaneLess(cl: Clients, c: Id)
    requires Sane(cl)
    ensures Sane(cl - {c})
  {
    forall d | d in cl - {c} ensures SaneClient((cl - {c})[d]) {
      assert SaneClient(cl[d]);
    }
  }

  lemma WithoutMore(q: seq<Id>, c: Id)
    ensures Without(q + [c], c) == Without(q, c)
  {
    assert (q + [c])[..|q|] == q;
  }

  lemma CoreNoQueues(cl: Clients, b: Queues, n: Counts, byType: map<BType, nat>, total: nat, list: seq<Id>, c: Id)
    requires Core(cl, b, n, byType, total, list) && Sane(cl) && c in cl && !cl[c].blocked
    ensures forall k :: Queue(b, k) == Without(Queue(b, k), c)
  {
    assert SaneClient(cl[c]);
    NoQueues(cl, b, n, c);
  }

  /** A client that is not blocked can be forgotten. */
  lemma DisconnectKeeps(cl: Clients, b: Queues, n: Counts, byType: map<BType, nat>, total: nat, list: seq<Id>, c: Id)
    requires Core(cl, b, n, byType, total, list) && Sane(cl) && c in cl && !cl[c].blocked
    ensures Core(cl - {c}, b, n, byType, total, Without(list, c))
  {
    var cm := cl - {c};
    assert SaneClient(cl[c]) && cl[c].keys == {};
    forall k, d ensures d in Queue(b, k) <==> d in cm && k in cm[d].keys {
      assert d in Queue(b, k) <==> d in cl && k in cl[d].keys;
    }
    forall k ensures Count(n, k) == Flagged(cm, Queue(b, k)) {
      FlaggedSame(cl, cm, Queue(b, k));
    }
    assert AllBlocked(cm) == AllBlocked(cl);
    forall t: BType ensures OfType(cm, t) == OfType(cl, t) {}
    WithoutDistinct(list, c);
    forall d ensures d in Without(list, c) <==> d in cm && cm[d].queued {
      WithoutMember(list, c, d);
    }
  }

  lemma ConnectKeeps(cl: Clients, b: Queues, n: Counts, byType: map<BType, nat>, total: nat, list: seq<Id>, c: Id)
    requires Sane(cl) && Index(cl, b, n) && Counters(cl, byType, total) && RequeueOk(cl, list) && c !in cl
    ensures var cm := cl[c := Client(NoBlock, false, false, false, {}, false)];
            Sane(cm) && Index(cm, b, n) && Counters(cm, byType, total) && RequeueOk(cm, list)
  {
    var cm := cl[c := Client(NoBlock, false, false, false, {}, false)];
    forall k, d ensures d in Queue(b, k) <==> d in cm && k in cm[d].keys {
      assert d in Queue(b, k) <==> d in cl && k in cl[d].keys;
    }
    forall k ensures Count(n, k) == Flagged(cm, Queue(b, k)) {
      FlaggedSame(cl, cm, Queue(b, k));
    }
    assert AllBlocked(cm) == AllBlocked(cl);
    forall t: BType ensures OfType(cm, t) == OfType(cl, t) {}
  }

  datatype Option = None | Some(value: Id)

  function First(q: seq<Id>): Option {
    if |q| == 0 then None else Some(q[0])
  }

  /** The next client of a queue, as an iterator over the list sees it. */
  function Succ(q: seq<Id>, c: Id): Option {
    if |q| < 2 then None else if q[0] == c then Some(q[1]) else Succ(q[1..], c)
  }

  lemma {:induction false} SuccAt(a: seq<Id>, c: Id, b: seq<Id>)
    requires c !in a
    ensures Succ(a + [c] + b, c) == First(b)
  {
    var q := a + [c] + b;
    if |a| > 0 {
      assert q[1..] == a[1..] + [c] + b;
      SuccAt(a[1..], c, b);
    } else {
      assert q == [c] + b;
    }
  }

  /** One visit: what is found under the key, and what the command does if it is run again. */
  datatype Visit = Visit(found: Lookup, outcome: Outcome)

  predicate Runnable(a: Again) {
    && (a.BlocksOn? ==> OnKeys(a.btype))
    && (a.BlocksElse? ==> a.btype != NoBlock && !OnKeys(a.btype))
  }

  predicate Picks(q: seq<Id>, cl: Clients, visits: seq<Visit>, i: nat)
    requires i < |q| && i < |visits|
  {
    q[i] in cl && Matches(cl[q[i]], visits[i].found)
  }

  /** The clients among the first `n` whose wait is over, in queue order. */
  function Chosen(q: seq<Id>, cl: Clients, visits: seq<Visit>, n: nat): (r: seq<Id>)
    requires n <= |q| && n <= |visits|
    ensures |r| <= n
  {
    if n == 0 then []
    else Chosen(q, cl, visits, n - 1) + if Picks(q, cl, visits, n - 1) then [q[n - 1]] else []
  }

  /** Those that stay where they are. */
  function Passed(q: seq<Id>, cl: Clients, visits: seq<Visit>, n: nat): seq<Id>
    requires n <= |q| && n <= |visits|
  {
    if n == 0 then []
    else Passed(q, cl, visits, n - 1) + if Picks(q, cl, visits, n - 1) then [] else [q[n - 1]]
  }

  /** Those that are served and block on the same key again. */
  function Rejoined(q: seq<Id>, cl: Clients, visits: seq<Visit>, k: Key, n: nat): seq<Id>
    requires n <= |q| && n <= |visits|
  {
    if n == 0 then []
    else Rejoined(q, cl, visits, k, n - 1) +
         if Picks(q, cl, visits, n - 1) && BlocksOnKey(visits[n - 1].outcome.again, k) then [q[n - 1]] else []
  }

  /** A client is served exactly if it waits for deletions, or if a value of its kind is there. */
  lemma ServedIff(q: seq<Id>, cl: Clients, visits: seq<Visit>)
    requires |q| == |visits| && Distinct(q) && forall c :: c in q ==> c in cl
    ensures Answered(q, cl, visits, Chosen(q, cl, visits, |q|))
  {
    forall i | 0 <= i < |q|
      ensures q[i] in Chosen(q, cl, visits, |q|) <==> cl[q[i]].nokey || visits[i].found == Present(cl[q[i]].btype)
    {
      ChosenOrder(q, cl, visits, |q|, i);
    }
  }

  /** Exactly the clients that a visit is for: one that waits for deletions, or for the kind of value found. */
  ghost predicate Answered(q: seq<Id>, cl: Clients, visits: seq<Visit>, served: seq<Id>)
    requires |q| == |visits|
  {
    forall i :: 0 <= i < |q| ==>
      && q[i] in cl
      && (q[i] in served <==> cl[q[i]].nokey || visits[i].found == Present(cl[q[i]].btype))
  }

  /** After `i` visits: the passed clients, the clients still to be visited, the rejoined ones. */
  ghost predicate Handled(q: seq<Id>, cl: Clients, visits: seq<Visit>, k: Key, i: nat, now: seq<Id>, cm: Clients,
                          served: seq<Id>)
    requires i <= |q| == |visits|
  {
    && now == Passed(q, cl, visits, i) + q[i..] + Rejoined(q, cl, visits, k, i)
    && served == Chosen(q, cl, visits, i)
    && cm.Keys == cl.Keys && (forall c :: c in cm && c !in served ==> cm[c] == cl[c])
    && forall j :: 0 <= j < i && Picks(q, cl, visits, j) ==>
         q[j] in cm && cm[q[j]] == AfterServe(cl[q[j]], visits[j].outcome.again)
  }

  lemma ValidQueue(cl: Clients, b: Queues, n: Counts, byType: map<BType, nat>, total: nat, list: seq<Id>, k: Key)
    requires Core(cl, b, n, byType, total, list)
    ensures Distinct(Queue(b, k)) && forall c :: c in Queue(b, k) ==> c in cl && k in cl[c].keys
  {}

  lemma HandleStart(q: seq<Id>, cl: Clients, visits: seq<Visit>, k: Key)
    requires |q| == |visits|
    ensures Handled(q, cl, visits, k, 0, q, cl, [])
  {
    assert [] + q[0..] + [] == q;
  }

  lemma HandleEnd(q: seq<Id>, cl: Clients, visits: seq<Visit>, k: Key, now: seq<Id>, cm: Clients, served: seq<Id>)
    requires |q| == |visits| && Handled(q, cl, visits, k, |q|, now, cm, served)
    requires Distinct(q) && forall c :: c in q ==> c in cl
    ensures now == Passed(q, cl, visits, |q|) + Rejoined(q, cl, visits, k, |q|) && served == Chosen(q, cl, visits, |q|)
    ensures cm.Keys == cl.Keys && forall c :: c in cm && c !in served ==> cm[c] == cl[c]
    ensures Answered(q, cl, visits, served)
    ensures forall i :: 0 <= i < |q| && q[i] in served ==> cm[q[i]] == AfterServe(cl[q[i]], visits[i].outcome.again)
  {
    hide AfterServe;
    assert Passed(q, cl, visits, |q|) + q[|q|..] == Passed(q, cl, visits, |q|);
    ServedIff(q, cl, visits);
    forall i | 0 <= i < |q| && q[i] in served ensures Picks(q, cl, visits, i) {
      ChosenOrder(q, cl, visits, |q|, i);
    }
  }

  lemma {:induction false} ChosenBefore(q: seq<Id>, cl: Clients, visits: seq<Visit>, n: nat, c: Id)
    requires n <= |q| == |visits| && c in Chosen(q, cl, visits, n)
    ensures c in q[..n]
  {
    if c in Chosen(q, cl, visits, n - 1) {
      ChosenBefore(q, cl, visits, n - 1, c);
    }
    assert q[..n] == q[..n - 1] + [q[n - 1]];
  }

  /** Exactly the clients whose visit finds their wait over are served, earlier ones first. */
  lemma {:induction false} ChosenOrder(q: seq<Id>, cl: Clients, visits: seq<Visit>, n: nat, i: nat)
    requires n <= |q| == |visits| && i < n && Distinct(q)
    ensures var a, b := Chosen(q, cl, visits, i), Chosen(q, cl, visits, n);
            a <= b && (if Picks(q, cl, visits, i) then |a| < |b| && b[|a|] == q[i] else q[i] !in b)
  {
    if i + 1 < n {
      ChosenOrder(q, cl, visits, n - 1, i);
    } else if q[i] in Chosen(q, cl, visits, i) {
      ChosenBefore(q, cl, visits, i, q[i]);
    }
  }

  /** The client about to be visited stands as it stood, and the iterator knows the one after it. */
  lemma HandleCurrent(q: seq<Id>, cl: Clients, visits: seq<Visit>, k: Key, i: nat, now: seq<Id>, cm: Clients,
                      served: seq<Id>)
    requires i < |q| == |visits| && Handled(q, cl, visits, k, i, now, cm, served)
    requires Distinct(q) && Distinct(now) && forall c :: c in now ==> c in cm && k in cm[c].keys
    ensures q[i] in cm && k in cm[q[i]].keys && cm[q[i]] == cl[q[i]]
    ensures Picks(q, cl, visits, i) <==> Matches(cm[q[i]], visits[i].found)
    ensures i + 1 < |q| ==> Succ(now, q[i]) == Some(q[i + 1])
  {
    hide Passed, Rejoined, Picks;
    var a, b := Passed(q, cl, visits, i), q[i + 1..] + Rejoined(q, cl, visits, k, i);
    assert q[i..] == [q[i]] + q[i + 1..];
    assert now == a + [q[i]] + b;
    assert now[|a|] == q[i];
    assert q[i] !in a by {
      assert forall m :: 0 <= m < |a| ==> now[m] == a[m];
    }
    SuccAt(a, q[i], b);
    if q[i] in served {
      ChosenBefore(q, cl, visits, i, q[i]);
      assert false;
    }
    PicksIs(q, cl, visits, i);
  }

  lemma PicksIs(q: seq<Id>, cl: Clients, visits: seq<Visit>, i: nat)
    requires i < |q| && i < |visits|
    ensures Picks(q, cl, visits, i) <==> q[i] in cl && Matches(cl[q[i]], visits[i].found)
  {}

  lemma HandlePassed(q: seq<Id>, cl: Clients, visits: seq<Visit>, k: Key, i: nat, now: seq<Id>, cm: Clients,
                     served: seq<Id>)
    requires i < |q| == |visits| && Handled(q, cl, visits, k, i, now, cm, served) && !Picks(q, cl, visits, i)
    ensures Handled(q, cl, visits, k, i + 1, now, cm, served)
  {
    assert q[i..] == [q[i]] + q[i + 1..];
    assert Rejoined(q, cl, visits, k, i + 1) == Rejoined(q, cl, visits, k, i);
    assert Chosen(q, cl, visits, i + 1) == Chosen(q, cl, visits, i);
  }

  lemma DistinctMiddle(a: seq<Id>, c: Id, b: seq<Id>)
    requires Distinct(a + [c] + b)
    ensures c !in a && c !in b
  {
    var q := a + [c] + b;
    assert q[|a|] == c;
    forall m | 0 <= m < |a| ensures a[m] != c {
      assert q[m] == a[m];
    }
    forall m | 0 <= m < |b| ensures b[m] != c {
      assert q[|a| + 1 + m] == b[m];
    }
  }

  lemma WithoutMiddle(a: seq<Id>, c: Id, b: seq<Id>)
    requires Distinct(a + [c] + b)
    ensures Without(a + [c] + b, c) == a + b
  {
    DistinctMiddle(a, c, b);
    WithoutSelf(c);
    hide Distinct, Without;
    WithoutAbsent(a, c);
    WithoutAbsent(b, c);
    WithoutAppend(a, [c], c);
    assert Without(a + [c], c) == a;
    WithoutAppend(a + [c], b, c);
  }

  lemma WithoutSelf(c: Id)
    ensures Without([c], c) == []
  {}

  lemma HandleServed(q: seq<Id>, cl: Clients, visits: seq<Visit>, k: Key, i: nat, now: seq<Id>, cm: Clients,
                     served: seq<Id>, x: Client)
    requires i < |q| == |visits| && Handled(q, cl, visits, k, i, now, cm, served) && Picks(q, cl, visits, i)
    requires Distinct(q) && Distinct(now) && q[i] in cm && x == AfterServe(cl[q[i]], visits[i].outcome.again)
    ensures var rest := Without(now, q[i]) + if BlocksOnKey(visits[i].outcome.again, k) then [q[i]] else [];
            Handled(q, cl, visits, k, i + 1, rest, cm[q[i] := x], served + [q[i]])
  {
    hide AfterServe, BlocksOnKey, Picks, Without;
    var a, b := Passed(q, cl, visits, i), Rejoined(q, cl, visits, k, i);
    assert q[i..] == [q[i]] + q[i + 1..];
    assert now == a + [q[i]] + (q[i + 1..] + b);
    WithoutMiddle(a, q[i], q[i + 1..] + b);
    assert Passed(q, cl, visits, i + 1) == a;
    assert a + (q[i + 1..] + b) == a + q[i + 1..] + b;
    assert Rejoined(q, cl, visits, k, i + 1) == b + if BlocksOnKey(visits[i].outcome.again, k) then [q[i]] else [];
    assert (cm[q[i] := x]).Keys == cm.Keys;
  }

  /** A client that a command has blocked. */
  function Blocking(x: Client, a: Again): Client
    requires !a.Finished?
  {
    if a.BlocksOn? then Client(a.btype, true, x.queued, true, KeySet(a.keys), a.nokey)
    else x.(blocked := true, btype := a.btype, pending := x.pending || a.btype == OnPostpone)
  }

  /** A client that was taken from the list of unblocked clients and, unless it is blocked,
      ran what it had to run. */
  function Reprocessed(x: Client, a: Again): Client {
    var y := x.(queued := false);
    if x.blocked then y
    else
      var z := y.(pending := false);
      if a.Finished? then z else Blocking(z, a)
  }

  /** An idle client that ran a command from the list of unblocked clients. */
  lemma IdleAgain(cl: Clients, c: Id, a: Again)
    requires Sane(cl) && c in cl
    ensures !cl[c].blocked ==>
              && cl[c].(queued := false, pending := false) == Client(NoBlock, false, false, false, {}, false)
              && Reprocessed(cl[c], a) == match a
                 case Finished => Client(NoBlock, false, false, false, {}, false)
                 case BlocksOn(t, keys, flag) => Client(t, true, false, true, KeySet(keys), flag)
                 case BlocksElse(t) => Client(t, true, false, t == OnPostpone, {}, false)
  {
    assert SaneClient(cl[c]);
  }

  predicate BlocksOnKey(a: Again, k: Key) {
    a.BlocksOn? && k in a.keys
  }

  /** A client after its command has been run again. */
  function AfterServe(x: Client, a: Again): Client {
    if a.Finished? then Client(NoBlock, false, true, false, {}, false)
    else Blocking(Client(NoBlock, false, x.queued, false, {}, false), a)
  }

  lemma {:induction false} WithoutTwice(q: seq<Id>, c: Id)
    ensures Without(Without(q, c), c) == Without(q, c)
  {
    WithoutMember(q, c, c);
    WithoutAbsent(Without(q, c), c);
  }

  lemma ReleasedFirst(b: Queues, c: Id, k: Key)
    ensures forall j :: Without(Queue(Released(b, c, k), j), c) == Without(Queue(b, j), c)
  {
    forall j ensures Without(Queue(Released(b, c, k), j), c) == Without(Queue(b, j), c) {
      WithoutTwice(Queue(b, k), c);
    }
  }

  /** A client that no longer waits. */
  function Freed(x: Client, requeue: bool): Client {
    Client(NoBlock, false, x.queued || requeue, x.pending, {}, false)
  }

  lemma NoQueues(cl: Clients, b: Queues, n: Counts, c: Id)
    requires Index(cl, b, n) && c in cl && cl[c].keys == {}
    ensures forall k :: Queue(b, k) == Without(Queue(b, k), c)
  {
    forall k ensures Queue(b, k) == Without(Queue(b, k), c) {
      assert c !in Queue(b, k);
      WithoutAbsent(Queue(b, k), c);
    }
  }

  /** A signal matters if a client is blocked with its type, and a client waits for its key, for
      a deletion if it is one. */
  ghost predicate Concerned(cl: Clients, g: Signal) {
    && (exists c :: c in cl && cl[c].blocked && cl[c].btype == g.btype)
    && exists c :: c in cl && g.key in cl[c].keys && (g.deleted ==> cl[c].nokey)
  }

  /** One of the signals is for the key, and matters. */
  ghost predicate Calls(cl: Clients, signals: seq<Signal>, k: Key) {
    exists i :: 0 <= i < |signals| && signals[i].key == k && Concerned(cl, signals[i])
  }

  lemma CallsNext(cl: Clients, signals: seq<Signal>, g: Signal, k: Key)
    ensures Calls(cl, signals + [g], k) <==> Calls(cl, signals, k) || (g.key == k && Concerned(cl, g))
  {
    hide Concerned;
    var more := signals + [g];
    assert more[|signals|] == g;
    if Calls(cl, signals, k) {
      var i :| 0 <= i < |signals| && signals[i].key == k && Concerned(cl, signals[i]);
      assert more[i] == signals[i];
    }
  }

  ghost predicate Mentioned(visits: seq<Visit>, k: Key) {
    exists i :: 0 <= i < |visits| && exists g :: g in visits[i].outcome.signals && g.key == k
  }

  lemma MentionedCalls(visits: seq<Visit>, i: nat)
    requires i < |visits|
    ensures forall cl: Clients, k :: Calls(cl, visits[i].outcome.signals, k) ==> Mentioned(visits, k)
  {
    hide Concerned;
    var signals := visits[i].outcome.signals;
    forall cl: Clients, k | Calls(cl, signals, k) ensures Mentioned(visits, k) {
      var n :| 0 <= n < |signals| && signals[n].key == k && Concerned(cl, signals[n]);
      assert signals[n] in signals;
    }
  }

  /** What the signals of a command do to the ready keys: exactly the keys of those that matter are
      queued now, behind the ones that were. */
  ghost predicate Signalled(cl: Clients, dict: set<Key>, list: seq<Key>, signals: seq<Signal>,
                            dict': set<Key>, list': seq<Key>)
  {
    && (forall k :: k in dict' <==> k in dict || Calls(cl, signals, k))
    && list <= list' && forall i :: |list| <= i < |list'| ==> list'[i] !in dict
  }

  lemma NoSignals(cl: Clients, dict: set<Key>, list: seq<Key>, signals: seq<Signal>)
    ensures Signalled(cl, dict, list, signals[..0], dict, list)
  {}

  /** One more signal. */
  lemma SignalledNext(cl: Clients, dict: set<Key>, list: seq<Key>, signals: seq<Signal>, n: nat,
                      dict': set<Key>, list': seq<Key>)
    requires n < |signals| && Signalled(cl, dict, list, signals[..n], dict', list')
    ensures var g := signals[n];
            if g.key !in dict' && Concerned(cl, g)
            then Signalled(cl, dict, list, signals[..n + 1], dict' + {g.key}, list' + [g.key])
            else Signalled(cl, dict, list, signals[..n + 1], dict', list')
  {
    hide Concerned, Calls;
    assert signals[..n + 1] == signals[..n] + [signals[n]];
    forall k ensures Calls(cl, signals[..n + 1], k) <==>
                     Calls(cl, signals[..n], k) || (signals[n].key == k && Concerned(cl, signals[n]))
    {
      CallsNext(cl, signals[..n], signals[n], k);
    }
  }

  lemma {:induction false} FlaggedSome(cl: Clients, q: seq<Id>)
    requires Flagged(cl, q) > 0
    ensures exists c :: c in q && c in cl && cl[c].nokey
  {
    var last := q[|q| - 1];
    if !(last in cl && cl[last].nokey) {
      FlaggedSome(cl, q[..|q| - 1]);
    }
  }

  /** The quick checks of a signal look only at counters and dictionaries, and are exact. */
  lemma Waiting(cl: Clients, b: Queues, n: Counts, byType: map<BType, nat>, total: nat, g: Signal)
    requires Sane(cl) && Index(cl, b, n) && Counters(cl, byType, total)
    ensures g.btype in byType
    ensures Concerned(cl, g) <==>
            g.btype != NoBlock && byType[g.btype] > 0 && if g.deleted then g.key in n else g.key in b
  {
    forall c | c in cl ensures SaneClient(cl[c]) {}
    WaitingType(cl, byType, total, g.btype);
    if c :| c in cl && g.key in cl[c].keys && (g.deleted ==> cl[c].nokey) {
      assert c in Queue(b, g.key);
      if g.deleted {
        FlaggedWithout(cl, Queue(b, g.key), c);
      }
    }
    if g.deleted && g.key in n {
      FlaggedSome(cl, Queue(b, g.key));
      var c :| c in Queue(b, g.key) && c in cl && cl[c].nokey;
      assert g.key in cl[c].keys;
    }
    if !g.deleted && g.key in b {
      var c := b[g.key][0];
      assert c in Queue(b, g.key);
    }
  }

  lemma WaitingType(cl: Clients, byType: map<BType, nat>, total: nat, t: BType)
    requires Sane(cl) && Counters(cl, byType, total)
    ensures t in byType
    ensures (exists c :: c in cl && cl[c].blocked && cl[c].btype == t) <==> t != NoBlock && byType[t] > 0
  {
    forall c | c in cl ensures SaneClient(cl[c]) {}
    if c :| c in cl && cl[c].blocked && cl[c].btype == t {
      assert c in OfType(cl, t);
    }
    if t != NoBlock && byType[t] > 0 {
      var c :| c in OfType(cl, t);
    }
  }

  lemma EntryThere(cl: Clients, b: Queues, n: Counts, c: Id, k: Key)
    requires Index(cl, b, n) && c in cl && k in cl[c].keys
    ensures k in b && c in b[k] && Queue(b, k) == b[k]
    ensures forall j :: j in n ==> n[j] > 0
  {
    assert c in Queue(b, k);
  }

  lemma LeavesKeys(cl: Clients, c: Id, k: Key, ks: set<Key>)
    requires c in cl
    ensures Leaves(cl[c := cl[c].(keys := ks)], c, k) == cl[c := cl[c].(keys := ks - {k})]
  {}

  predicate Halves(all: set<Key>, todo: set<Key>, gone: set<Key>) {
    todo + gone == all && todo !! gone
  }

  lemma HalvesNext(all: set<Key>, todo: set<Key>, gone: set<Key>, k: Key)
    requires Halves(all, todo, gone) && k in todo
    ensures Halves(all, todo - {k}, gone + {k}) && k !in gone
  {}

  lemma HalvesEnd(all: set<Key>, gone: set<Key>)
    requires Halves(all, {}, gone)
    ensures gone == all
  {}

  /** The client has left the queues of the keys in `gone`, and no other. */
  ghost predicate Dropped(b: Queues, bb: Queues, c: Id, gone: set<Key>) {
    forall k :: Queue(bb, k) == if k in gone then Without(Queue(b, k), c) else Queue(b, k)
  }

  lemma NoneDropped(b: Queues, c: Id)
    ensures Dropped(b, b, c, {})
  {}

  lemma DroppedNext(b: Queues, bb: Queues, c: Id, gone: set<Key>, k: Key)
    requires Dropped(b, bb, c, gone) && k !in gone
    ensures Dropped(b, Released(bb, c, k), c, gone + {k})
  {
    var r := Released(bb, c, k);
    forall j ensures Queue(r, j) == if j in gone + {k} then Without(Queue(b, j), c) else Queue(b, j) {
      assert Queue(r, j) == if j == k then Without(Queue(bb, k), c) else Queue(bb, j);
    }
  }

  lemma AllDropped(cl: Clients, b: Queues, n: Counts, c: Id, bb: Queues)
    requires Index(cl, b, n) && c in cl && Dropped(b, bb, c, cl[c].keys)
    ensures forall k :: Queue(bb, k) == Without(Queue(b, k), c)
  {
    forall k ensures Queue(bb, k) == Without(Queue(b, k), c) {
      if k !in cl[c].keys {
        assert c !in Queue(b, k);
        WithoutAbsent(Queue(b, k), c);
      }
    }
  }

  lemma QueueAdd(b: Queues, k: Key, c: Id)
    ensures forall j :: Queue(b[k := Queue(b, k) + [c]], j) == Queue(b, j) + if j == k then [c] else []
  {
    assert forall j :: Queue(b, j) + [] == Queue(b, j);
  }

  lemma WaitsFlag(cl: Clients, c: Id, k: Key, flag: bool)
    requires c in cl
    ensures var v := Waits(cl, c, k); v[c := v[c].(nokey := flag)] == Waits(cl[c := cl[c].(nokey := flag)], c, k)
  {}

  lemma KeySetNext(keys: seq<Key>, j: nat)
    requires j < |keys|
    ensures KeySet(keys[..j + 1]) == KeySet(keys[..j]) + {keys[j]}
    ensures forall k :: k in keys[..j + 1] <==> k in keys[..j] || k == keys[j]
    ensures forall k :: k in KeySet(keys[..j]) <==> k in keys[..j]
    ensures keys[j] in keys[..j] ==> KeySet(keys[..j + 1]) == KeySet(keys[..j])
  {
    assert keys[..j + 1] == keys[..j] + [keys[j]];
  }

  lemma UpdateTwice(cl: Clients, c: Id, x: Client, y: Client)
    ensures cl[c := x][c := y] == cl[c := y]
  {}

  lemma ReadyEmpty(dict: set<Key>)
    requires ReadyOk(dict, [])
    ensures dict == {}
  {}

  lemma KeySetOne(k: Key)
    ensures KeySet([k]) == {k}
  {}

  lemma ConcernedBy(cl: Clients, c: Id, k: Key)
    requires c in cl && cl[c].blocked && k in cl[c].keys
    ensures Concerned(cl, Signal(k, cl[c].btype, false))
  {}

  lemma QueuedClient(cl: Clients, b: Queues, n: Counts, byType: map<BType, nat>, total: nat, list: seq<Id>, c: Id)
    requires Core(cl, b, n, byType, total, list) && c in cl && cl[c].queued
    ensures c in list
  {}

  lemma NotMentioned(visit: Visit, dict: set<Key>, work: seq<Key>, list: seq<Key>)
    requires visit.outcome.signals == [] && ReadyOk(dict, work + list)
    requires forall j :: j in dict ==> Mentioned([visit], j)
    ensures list == []
  {
    forall j ensures j !in work + list {
      assert !Mentioned([visit], j);
    }
    SomeListed(work, list);
  }

  lemma SomeListed(work: seq<Key>, list: seq<Key>)
    ensures list != [] ==> exists j :: j in work + list
  {
    if list != [] {
      assert list[0] in work + list;
    }
  }

  /** The only client of a queue, which waits for the kind of value that is found. */
  lemma VisitOne(cl: Clients, c: Id, k: Key, visit: Visit)
    requires c in cl && visit.found == Present(cl[c].btype) && visit.outcome.again == Finished
    ensures Chosen([c], cl, [visit], 1) == [c]
    ensures Passed([c], cl, [visit], 1) + Rejoined([c], cl, [visit], k, 1) == []
    ensures AfterServe(cl[c], Finished) == Client(NoBlock, false, true, false, {}, false)
  {
    assert Chosen([c], cl, [visit], 0) == [] && Passed([c], cl, [visit], 0) == [];
    assert Rejoined([c], cl, [visit], k, 0) == [];
  }

  /** BLPOP, BZPOPMIN or XREAD on a key nobody waits for, then a write to the key: the client is
      served when the ready keys are handled, and queued for its next command. */
  method ServedAfterWrite(s: Server, c: Id, k: Key, t: BType) returns (served: seq<Id>)
    requires s.Valid() && c in s.clients && !s.clients[c].blocked && (t == OnList || t == OnZset || t == OnStream)
    requires s.readyList == s.work == [] && Queue(s.blocking, k) == []
    modifies s
    ensures s.Valid() && served == [c] && Queue(s.blocking, k) == [] && s.readyList == s.work == []
    ensures s.clients == old(s.clients)[c := Client(NoBlock, false, true, false, {}, false)] && c in s.unblocked
  {
    hide Core, ReadyOk, Sane, Queue, KeySet, Chosen, Passed, Rejoined, Answered, AfterServe, Concerned, Without;
    assert s.work + s.readyList == [];
    ReadyEmpty(s.readyDict);
    ghost var cl := s.clients;
    s.BlockForKeys(c, t, [k], false);
    KeySetOne(k);
    ConcernedBy(s.clients, c, k);
    s.SignalKey(Signal(k, t, false));
    s.BeginHandling();
    var visit := Visit(Present(t), Outcome([], Finished));
    VisitOne(s.clients, c, k, visit);
    ghost var q, cm := Queue(s.blocking, k), s.clients;
    assert q == [c] && s.work == [k];
    served := s.HandleNext([visit]);
    NotMentioned(visit, s.readyDict, s.work, s.readyList);
    assert Queue(s.blocking, k) == Passed(q, cm, [visit], 1) + Rejoined(q, cm, [visit], k, 1);
    assert q[0] in served;
    assert s.clients == cl[c := Client(NoBlock, false, true, false, {}, false)];
    QueuedClient(s.clients, s.blocking, s.nokey, s.byType, s.total, s.unblocked, c);
  }
}
