/** The doubly linked list, refined to the sequence of its nodes. */
module Adlist {
  type Value = int   // a pointer, of which only equality matters

  class Node {
    var prev: Node?
    var next: Node?
    var value: Value

    /** `listInitNode`. */
    constructor (value: Value)
      ensures this.value == value && prev == null && next == null
    {
      this.value := value;
      prev, next := null, null;
    }
  }

  function At(s: seq<Node>, i: int): Node? {
    if 0 <= i < |s| then s[i] else null
  }

  /** No node stands twice. */
  predicate Distinct(s: seq<Node>) {
    forall i, j :: 0 <= i < j < |s| ==> s[i] != s[j]
  }

  /** Every node points at its neighbours. */
  predicate Linked(s: seq<Node>)
    reads s
  {
    && (forall i {:trigger s[i].prev} :: 0 <= i < |s| ==> s[i].prev == At(s, i - 1))
    && (forall i {:trigger s[i].next} :: 0 <= i < |s| ==> s[i].next == At(s, i + 1))
  }

  function Values(s: seq<Node>): (r: seq<Value>)
    reads s
    ensures |r| == |s| && forall i :: 0 <= i < |s| ==> r[i] == s[i].value
  {
    seq(|s|, i requires 0 <= i < |s| reads s => s[i].value)
  }

  /** A node hooked in at place `p`. */
  lemma HookedIn(s: seq<Node>, p: nat, node: Node)
    requires Distinct(s) && p <= |s| && node !in s && node.prev == At(s, p - 1) && node.next == At(s, p)
    requires forall i {:trigger s[i].prev} :: 0 <= i < |s| ==> s[i].prev == if i == p then node else At(s, i - 1)
    requires forall i {:trigger s[i].next} :: 0 <= i < |s| ==> s[i].next == if i == p - 1 then node else At(s, i + 1)
    ensures Linked(s[..p] + [node] + s[p..]) && Distinct(s[..p] + [node] + s[p..])
  {
    var t := s[..p] + [node] + s[p..];
    forall i | 0 <= i < |t| ensures t[i].prev == At(t, i - 1) && t[i].next == At(t, i + 1) {
      if i < p {
        assert t[i] == s[i] && s[i].prev == At(t, i - 1) && s[i].next == At(t, i + 1);
      } else if i > p {
        var j := i - 1;
        assert t[i] == s[j] && s[j].prev == At(t, i - 1) && s[j].next == At(t, i + 1);
      }
    }
  }

  /** The node at place `k` taken out. */
  lemma HookedOut(s: seq<Node>, k: nat)
    requires Distinct(s) && k < |s|
    requires forall i {:trigger s[i].prev} :: 0 <= i < |s| && i != k ==>
               s[i].prev == At(s, if i == k + 1 then k - 1 else i - 1)
    requires forall i {:trigger s[i].next} :: 0 <= i < |s| && i != k ==>
               s[i].next == At(s, if i == k - 1 then k + 1 else i + 1)
    ensures Linked(s[..k] + s[k + 1..]) && Distinct(s[..k] + s[k + 1..])
  {
    var t := s[..k] + s[k + 1..];
    OutDistinct(s, k);
    forall i | 0 <= i < |t| ensures t[i].prev == At(t, i - 1) && t[i].next == At(t, i + 1) {
      var j := if i < k then i else i + 1;
      AtOut(s, k, i);
      AtOut(s, k, i - 1);
      AtOut(s, k, i + 1);
      assert t[i] == s[j] && s[j].prev == At(t, i - 1) && s[j].next == At(t, i + 1);
    }
  }

  lemma AtOut(s: seq<Node>, k: nat, i: int)
    requires k < |s| && i >= -1
    ensures At(s[..k] + s[k + 1..], i) == At(s, if i < k then i else i + 1)
  {}

  lemma OutDistinct(s: seq<Node>, k: nat)
    requires Distinct(s) && k < |s|
    ensures Distinct(s[..k] + s[k + 1..])
  {
    var t := s[..k] + s[k + 1..];
    forall i, j | 0 <= i < j < |t| ensures t[i] != t[j] {
      assert t[i] == s[if i < k then i else i + 1] && t[j] == s[if j < k then j else j + 1];
    }
  }

  /** The last node moved to the front. */
  lemma TurnedForward(s: seq<Node>)
    requires Distinct(s) && |s| > 1
    requires forall i {:trigger s[i].prev} :: 0 <= i < |s| ==>
               s[i].prev == if i == |s| - 1 then null else if i == 0 then s[|s| - 1] else At(s, i - 1)
    requires forall i {:trigger s[i].next} :: 0 <= i < |s| ==>
               s[i].next == if i == |s| - 1 then s[0] else if i == |s| - 2 then null else At(s, i + 1)
    ensures var t := [s[|s| - 1]] + s[..|s| - 1]; Linked(t) && Distinct(t)
  {
    var n := |s| - 1;
    var t := [s[n]] + s[..n];
    forall i | 0 <= i < |t| ensures t[i].prev == At(t, i - 1) && t[i].next == At(t, i + 1) {
      var j := if i == 0 then n else i - 1;
      assert t[i] == s[j] && s[j].prev == At(t, i - 1) && s[j].next == At(t, i + 1);
    }
  }

  /** The first node moved to the back. */
  lemma TurnedBack(s: seq<Node>)
    requires Distinct(s) && |s| > 1
    requires forall i {:trigger s[i].prev} :: 0 <= i < |s| ==>
               s[i].prev == if i == 0 then s[|s| - 1] else if i == 1 then null else At(s, i - 1)
    requires forall i {:trigger s[i].next} :: 0 <= i < |s| ==>
               s[i].next == if i == 0 then null else if i == |s| - 1 then s[0] else At(s, i + 1)
    ensures var t := s[1..] + [s[0]]; Linked(t) && Distinct(t)
  {
    var n := |s| - 1;
    var t := s[1..] + [s[0]];
    forall i | 0 <= i < |t| ensures t[i].prev == At(t, i - 1) && t[i].next == At(t, i + 1) {
      var j := if i == n then 0 else i + 1;
      assert t[i] == s[j] && s[j].prev == At(t, i - 1) && s[j].next == At(t, i + 1);
    }
  }

  lemma NothingLinked()
    ensures Linked([]) && Distinct([])
  {}

  /** Two chains hooked together. */
  lemma HookedUp(s: seq<Node>, t: seq<Node>)
    requires Distinct(s) && Distinct(t) && forall i :: 0 <= i < |s| ==> s[i] !in t
    requires forall i {:trigger s[i].prev} :: 0 <= i < |s| ==> s[i].prev == At(s, i - 1)
    requires forall i {:trigger s[i].next} :: 0 <= i < |s| ==>
               s[i].next == if i == |s| - 1 then At(t, 0) else At(s, i + 1)
    requires forall i {:trigger t[i].prev} :: 0 <= i < |t| ==>
               t[i].prev == if i == 0 then At(s, |s| - 1) else At(t, i - 1)
    requires forall i {:trigger t[i].next} :: 0 <= i < |t| ==> t[i].next == At(t, i + 1)
    ensures Linked(s + t) && Distinct(s + t)
  {
    var u := s + t;
    forall i | 0 <= i < |u| ensures u[i].prev == At(u, i - 1) && u[i].next == At(u, i + 1) {
      if i < |s| {
        assert u[i] == s[i] && s[i].prev == At(u, i - 1) && s[i].next == At(u, i + 1);
      } else {
        var j := i - |s|;
        assert u[i] == t[j] && t[j].prev == At(u, i - 1) && t[j].next == At(u, i + 1);
      }
    }
  }

  class List {
    var head: Node?
    var tail: Node?
    var len: nat
    ghost var nodes: seq<Node>

    ghost predicate Valid()
      reads this, nodes
    {
      Distinct(nodes) && Linked(nodes) && head == At(nodes, 0) && tail == At(nodes, |nodes| - 1) && len == |nodes|
    }

    /** `listCreate`. */
    constructor ()
      ensures Valid() && nodes == []
    {
      head, tail, len := null, null, 0;
      nodes := [];
    }

    /** `listLinkNodeHead`. */
    method LinkHead(node: Node)
      requires Valid() && node !in nodes
      modifies this, nodes, node
      ensures Valid() && nodes == [node] + old(nodes)
      ensures node.value == old(node.value) && forall n :: n in old(nodes) ==> n.value == old(n.value)
    {
      if len == 0 {
        head, tail := node, node;
        node.prev, node.next := null, null;
      } else {
        node.prev := null;
        node.next := head;
        head.prev := node;
        head := node;
      }
      len := len + 1;
      nodes := [node] + nodes;
    }

    /** `listLinkNodeTail`. */
    method LinkTail(node: Node)
      requires Valid() && node !in nodes
      modifies this, nodes, node
      ensures Valid() && nodes == old(nodes) + [node]
      ensures node.value == old(node.value) && forall n :: n in old(nodes) ==> n.value == old(n.value)
    {
      if len == 0 {
        head, tail := node, node;
        node.prev, node.next := null, null;
      } else {
        node.prev := tail;
        node.next := null;
        tail.next := node;
        tail := node;
      }
      len := len + 1;
      nodes := nodes + [node];
    }

    /** `listAddNodeHead`. */
    method AddHead(value: Value)
      requires Valid()
      modifies this, nodes
      ensures Valid() && Values(nodes) == [value] + old(Values(nodes)) && nodes[1..] == old(nodes) && fresh(nodes[0])
    {
      hide Linked, Distinct, At;
      var node := new Node(value);
      LinkHead(node);
    }

    /** `listAddNodeTail`. */
    method AddTail(value: Value)
      requires Valid()
      modifies this, nodes
      ensures Valid() && Values(nodes) == old(Values(nodes)) + [value]
      ensures |nodes| > 0 && nodes[..|nodes| - 1] == old(nodes) && fresh(nodes[|nodes| - 1])
    {
      hide Linked, Distinct, At;
      var node := new Node(value);
      LinkTail(node);
    }

    /** `listInsertNode`; `k` is the place of the old node. */
    method InsertNode(oldNode: Node, value: Value, after: bool, ghost k: nat)
      requires Valid() && k < |nodes| && nodes[k] == oldNode
      modifies this, nodes
      ensures Valid()
      ensures var p := if after then k + 1 else k;
              |nodes| == |old(nodes)| + 1 && fresh(nodes[p]) && nodes[p].value == value &&
              nodes == old(nodes)[..p] + [nodes[p]] + old(nodes)[p..]
      ensures forall n :: n in old(nodes) ==> n.value == old(n.value)
    {
      var node := new Node(value);
      if after {
        node.prev := oldNode;
        node.next := oldNode.next;
        if tail == oldNode {
          tail := node;
        }
      } else {
        node.next := oldNode;
        node.prev := oldNode.prev;
        if head == oldNode {
          head := node;
        }
      }
      HookIn(node, if after then k + 1 else k);
    }

    /** The neighbours of a node that knows its place `p` are told about it. */
    method HookIn(node: Node, ghost p: nat)
      requires Distinct(nodes) && Linked(nodes) && len == |nodes| && p <= |nodes| && node !in nodes
      requires node.prev == At(nodes, p - 1) && node.next == At(nodes, p)
      requires head == (if p == 0 then node else At(nodes, 0)) &&
                 tail == (if p == |nodes| then node else At(nodes, |nodes| - 1))
      modifies `len, `nodes, nodes
      ensures Valid() && nodes == old(nodes)[..p] + [node] + old(nodes)[p..]
      ensures node.value == old(node.value) && forall n :: n in old(nodes) ==> n.value == old(n.value)
    {
      if node.prev != null {
        node.prev.next := node;
      }
      if node.next != null {
        node.next.prev := node;
      }
      len := len + 1;
      HookedIn(nodes, p, node);
      nodes := nodes[..p] + [node] + nodes[p..];
    }

    /** `listUnlinkNode`; `k` is the place of the node. */
    method UnlinkNode(node: Node, ghost k: nat)
      requires Valid() && k < |nodes| && nodes[k] == node
      modifies this, nodes
      ensures Valid() && nodes == old(nodes)[..k] + old(nodes)[k + 1..]
      ensures node.prev == null && node.next == null
      ensures forall n :: n in old(nodes) ==> n.value == old(n.value)
    {
      HookOut(node, k);
      hide Linked, Distinct;
      len := len - 1;
      nodes := nodes[..k] + nodes[k + 1..];
    }

    /** The neighbours of a node are told about each other. */
    method HookOut(node: Node, ghost k: nat)
      requires Valid() && k < |nodes| && nodes[k] == node
      modifies `head, `tail, nodes
      ensures var t := nodes[..k] + nodes[k + 1..];
              Linked(t) && Distinct(t) && head == At(t, 0) && tail == At(t, |t| - 1)
      ensures node.prev == null && node.next == null
      ensures forall n :: n in nodes ==> n.value == old(n.value)
    {
      Neighbours(nodes, k);
      if node.prev != null {
        node.prev.next := node.next;
      } else {
        head := node.next;
      }
      if node.next != null {
        node.next.prev := node.prev;
      } else {
        tail := node.prev;
      }
      node.next := null;
      node.prev := null;
      HookedOut(nodes, k);
    }

    /** `listDelNode`. */
    method DelNode(node: Node, ghost k: nat)
      requires Valid() && k < |nodes| && nodes[k] == node
      modifies this, nodes
      ensures Valid() && nodes == old(nodes)[..k] + old(nodes)[k + 1..]
      ensures forall n :: n in old(nodes) ==> n.value == old(n.value)
    {
      UnlinkNode(node, k);
    }

    /** `listEmpty`. */
    method Empty()
      requires Valid()
      modifies this
      ensures Valid() && nodes == []
    {
      var current := head;
      var left := len;
      while left > 0
        invariant left <= |nodes| && current == At(nodes, |nodes| - left)
      {
        current := current.next;
        left := left - 1;
      }
      head, tail, len := null, null, 0;
      nodes := [];
    }

    /** `listIndex`: negative positions count from the tail. */
    method Index(index: int) returns (n: Node?)
      requires Valid()
      ensures n == At(nodes, if index < 0 then |nodes| + index else index)
    {
      if index < 0 {
        var i := -index - 1;
        n := tail;
        while i > 0 && n != null
          invariant 0 <= i && n == At(nodes, |nodes| + index + i)
          decreases i
        {
          n := n.prev;
          i := i - 1;
        }
      } else {
        var i := index;
        n := head;
        while i > 0 && n != null
          invariant 0 <= i <= index && n == At(nodes, index - i)
          decreases i
        {
          n := n.next;
          i := i - 1;
        }
      }
    }

    /** `listRotateTailToHead`. */
    method RotateTailToHead()
      requires Valid()
      modifies this, nodes
      ensures Valid() &&
                nodes == if |old(nodes)| <= 1 then old(nodes)
                    else [old(nodes)[|old(nodes)| - 1]] + old(nodes)[..|old(nodes)| - 1]
      ensures forall n :: n in old(nodes) ==> n.value == old(n.value)
    {
      if len <= 1 {
        return;
      }
      TurnForward();
      hide Linked, Distinct;
      nodes := [nodes[|nodes| - 1]] + nodes[..|nodes| - 1];
    }

    /** The pointers of the rotation. */
    method TurnForward()
      requires Valid() && len > 1
      modifies `head, `tail, nodes
      ensures var t := [nodes[|nodes| - 1]] + nodes[..|nodes| - 1];
              Linked(t) && Distinct(t) && head == t[0] && tail == t[|t| - 1]
      ensures forall n :: n in nodes ==> n.value == old(n.value)
    {
      var last := tail;
      tail := last.prev;
      tail.next := null;
      head.prev := last;
      last.prev := null;
      last.next := head;
      head := last;
      TurnedForward(nodes);
    }

    /** `listRotateHeadToTail`. */
    method RotateHeadToTail()
      requires Valid()
      modifies this, nodes
      ensures Valid() && nodes == if |old(nodes)| <= 1 then old(nodes) else old(nodes)[1..] + [old(nodes)[0]]
      ensures forall n :: n in old(nodes) ==> n.value == old(n.value)
    {
      if len <= 1 {
        return;
      }
      var first := head;
      head := first.next;
      head.prev := null;
      tail.next := first;
      first.next := null;
      first.prev := tail;
      tail := first;
      TurnedBack(nodes);
      nodes := nodes[1..] + [nodes[0]];
    }

    /** `listJoin`: the nodes of the other list are appended, and it is left empty. */
    method Join(o: List)
      requires Valid() && o.Valid() && o != this && forall n :: n in nodes ==> n !in o.nodes
      modifies this, o, nodes, o.nodes
      ensures Valid() && o.Valid() && nodes == old(nodes) + old(o.nodes) && o.nodes == []
      ensures forall n :: n in nodes ==> n.value == old(n.value)
    {
      if o.len == 0 {
        return;
      }
      HookTail(o);
      hide Linked, Distinct;
      tail := o.tail;
      len := len + o.len;
      nodes := nodes + o.nodes;
      o.head, o.tail, o.len := null, null, 0;
      o.nodes := [];
      NothingLinked();
    }

    /** The chain of the other list is hooked behind the last node. */
    method HookTail(o: List)
      requires Valid() && o.Valid() && o != this && o.len > 0 && forall n :: n in nodes ==> n !in o.nodes
      modifies `head, nodes, o.nodes
      ensures Linked(nodes + o.nodes) && Distinct(nodes + o.nodes) && head == At(nodes + o.nodes, 0)
      ensures forall n :: n in nodes ==> n.value == old(n.value)
      ensures forall n :: n in o.nodes ==> n.value == old(n.value)
    {
      o.head.prev := tail;
      if tail != null {
        tail.next := o.head;
      } else {
        head := o.head;
      }
      HookedUp(nodes, o.nodes);
    }

    /** `listSearchKey`, with the list's match method. */
    method SearchKey(matches: Value -> bool) returns (n: Node?)
      requires Valid()
      ensures n == null ==> forall i :: 0 <= i < |nodes| ==> !matches(nodes[i].value)
      ensures n != null ==> exists i :: 0 <= i < |nodes| && n == nodes[i] && matches(nodes[i].value) &&
                                        forall j :: 0 <= j < i ==> !matches(nodes[j].value)
    {
      var it := new Iter(this, FromHead);
      ghost var i := 0;
      n := it.Next();
      while n != null
        invariant 0 <= i <= |nodes| && n == At(nodes, i) && fresh(it) && it.direction == FromHead
        invariant i < |nodes| ==> it.next == At(nodes, i + 1)
        invariant forall j :: 0 <= j < i ==> !matches(nodes[j].value)
        decreases |nodes| - i
      {
        if matches(n.value) {
          return;
        }
        i := i + 1;
        n := it.Next();
      }
    }

    /** `listDup`, with the list's dup method. */
    method Dup(dup: Value -> Value) returns (copy: List)
      requires Valid()
      ensures fresh(copy) && fresh(copy.nodes) && copy.Valid()
      ensures Values(copy.nodes) == Mapped(Values(nodes), dup)
    {
      hide Linked, Distinct, Mapped, At, Values;
      copy := new List();
      var it := new Iter(this, FromHead);
      ghost var i, values := 0, Values(nodes);
      assert values[..0] == [];
      MappedNone(dup);
      assert Values(copy.nodes) == [];
      while it.next != null
        invariant 0 <= i <= |nodes| && it.next == At(nodes, i) && fresh(it) && it.direction == FromHead
        invariant fresh(copy) && fresh(copy.nodes) && copy.Valid()
        invariant Values(copy.nodes) == Mapped(values[..i], dup)
        decreases |nodes| - i
      {
        AtThere(nodes, i);
        Neighbours(nodes, i);
        var n := it.Next();
        MappedNext(values, i, dup);
        AddMapped(copy, dup(n.value));
        i := i + 1;
      }
      AtNone(nodes, i);
      assert values[..i] == values;
    }
  }

  /** `listAddNodeTail` on a list whose nodes are all new. */
  method AddMapped(copy: List, v: Value)
    requires copy.Valid()
    modifies copy, copy.nodes
    ensures copy.Valid() && Values(copy.nodes) == old(Values(copy.nodes)) + [v]
    ensures forall k :: 0 <= k < |copy.nodes| ==> copy.nodes[k] in old(copy.nodes) || fresh(copy.nodes[k])
  {
    hide Linked, Distinct, At, Values;
    copy.AddTail(v);
  }

  function Mapped(s: seq<Value>, f: Value -> Value): (r: seq<Value>)
    ensures |r| == |s| && forall i :: 0 <= i < |s| ==> r[i] == f(s[i])
  {
    seq(|s|, i requires 0 <= i < |s| => f(s[i]))
  }

  lemma MappedNone(f: Value -> Value)
    ensures Mapped([], f) == []
  {}

  lemma Neighbours(s: seq<Node>, i: nat)
    requires Linked(s) && i < |s|
    ensures s[i].next == At(s, i + 1) && s[i].prev == At(s, i - 1)
  {}

  lemma MappedNext(s: seq<Value>, i: nat, f: Value -> Value)
    requires i < |s|
    ensures Mapped(s[..i + 1], f) == Mapped(s[..i], f) + [f(s[i])]
  {}

  datatype Direction = FromHead | FromTail

  class Iter {
    var next: Node?
    const direction: Direction

    /** `listGetIterator`, `listRewind` and `listRewindTail`. */
    constructor (l: List, direction: Direction)
      ensures this.direction == direction && next == if direction == FromHead then l.head else l.tail
    {
      this.direction := direction;
      next := if direction == FromHead then l.head else l.tail;
    }

    /** `listNext`: what comes next is read before the current node is handed out. */
    method Next() returns (current: Node?)
      modifies this
      ensures current == old(next)
      ensures next == if current == null then null else if direction == FromHead then current.next else current.prev
    {
      current := next;
      if current != null {
        if direction == FromHead {
          next := current.next;
        } else {
          next := current.prev;
        }
      }
    }
  }

  // ------------------------------------------------------------------------------
  // Deleting while iterating
  // ------------------------------------------------------------------------------

  /** The nodes that are not doomed, in order. */
  ghost function Spared(s: seq<Node>, doomed: set<Node>): seq<Node> {
    if |s| == 0 then [] else Spared(s[..|s| - 1], doomed) + if s[|s| - 1] in doomed then [] else [s[|s| - 1]]
  }

  lemma SparedNext(s: seq<Node>, i: nat, doomed: set<Node>)
    requires i < |s|
    ensures Spared(s[..i + 1], doomed) == Spared(s[..i], doomed) + if s[i] in doomed then [] else [s[i]]
  {
    assert s[..i + 1][..i] == s[..i];
  }

  /** One visit: the iterator moves on, then the node may be deleted. */
  method Visit(l: List, it: Iter, doomed: set<Node>, ghost k: nat) returns (n: Node)
    requires l.Valid() && k < |l.nodes| && it.next == l.nodes[k]
    modifies l, l.nodes, it
    ensures n == old(l.nodes)[k] && l.Valid()
    ensures l.nodes == if n in doomed then old(l.nodes)[..k] + old(l.nodes)[k + 1..] else old(l.nodes)
    ensures it.next == At(old(l.nodes), if it.direction == FromHead then k + 1 else k - 1)
    ensures forall m :: m in old(l.nodes) ==> m.value == old(m.value)
  {
    Neighbours(l.nodes, k);
    hide Linked, Distinct;
    n := it.Next();
    if n in doomed {
      l.DelNode(n, k);
    }
  }

  /** The nodes carry these values. */
  ghost predicate Carry(s: seq<Node>, values: seq<Value>)
    reads s
  {
    Values(s) == values
  }

  predicate Within(a: seq<Node>, b: seq<Node>) {
    forall k :: 0 <= k < |a| ==> a[k] in b
  }

  lemma WithinLess(a: seq<Node>, k: nat, b: seq<Node>)
    requires Within(a, b) && k < |a|
    ensures Within(a[..k] + a[k + 1..], b)
  {}

  /** After `i` visits from the head: the spared ones of the first `i` nodes, then the rest. */
  ghost predicate HeadState(all: seq<Node>, i: nat, kept: seq<Node>, visited: seq<Node>, now: seq<Node>,
                            doomed: set<Node>) {
    i <= |all| && visited == all[..i] && kept == Spared(all[..i], doomed) && now == kept + all[i..]
  }

  lemma HeadStart(all: seq<Node>, doomed: set<Node>)
    ensures HeadState(all, 0, [], [], all, doomed)
  {
    assert all[..0] == [] && all == [] + all[0..];
  }

  lemma HeadNext(all: seq<Node>, i: nat, kept: seq<Node>, visited: seq<Node>, now: seq<Node>, doomed: set<Node>)
    requires i < |all| && HeadState(all, i, kept, visited, now, doomed)
    ensures var k := |kept|;
            && k < |now| && now[k] == all[i] && At(now, k + 1) == At(all, i + 1)
            && HeadState(all, i + 1, if all[i] in doomed then kept else kept + [all[i]], visited + [all[i]],
                         if all[i] in doomed then now[..k] + now[k + 1..] else now, doomed)
  {
    SparedNext(all, i, doomed);
    assert all[..i + 1] == all[..i] + [all[i]] && all[i..] == [all[i]] + all[i + 1..];
    hide Spared;
  }

  lemma HeadEnd(all: seq<Node>, i: nat, kept: seq<Node>, visited: seq<Node>, now: seq<Node>, doomed: set<Node>)
    requires HeadState(all, i, kept, visited, now, doomed) && At(all, i) == null
    ensures visited == all && now == Spared(all, doomed)
  {
    assert all[..|all|] == all && kept + [] == kept;
  }

  method HeadStep(l: List, it: Iter, doomed: set<Node>, ghost all: seq<Node>, ghost values: seq<Value>, ghost i: nat,
                  ghost kept: seq<Node>, ghost visited: seq<Node>)
    returns (n: Node, ghost kept': seq<Node>)
    requires l.Valid() && it.direction == FromHead && HeadState(all, i, kept, visited, l.nodes, doomed) &&
               Within(l.nodes, all) && Carry(all, values)
    requires it.next != null && it.next == At(all, i)
    modifies l, all, it
    ensures l.Valid() && it.next == At(all, i + 1) && i < |all| && Within(l.nodes, all)
    ensures HeadState(all, i + 1, kept', visited + [n], l.nodes, doomed)
    ensures Carry(all, values)
  {
    hide Linked, Distinct, HeadState, At;
    AtThere(all, i);
    HeadNext(all, i, kept, visited, l.nodes, doomed);
    WithinLess(l.nodes, |kept|, all);
    n := Visit(l, it, doomed, |kept|);
    kept' := if n in doomed then kept else kept + [n];
  }

  method WalkForward(l: List, it: Iter, doomed: set<Node>, ghost all: seq<Node>, ghost values: seq<Value>)
    returns (visited: seq<Node>)
    requires l.Valid() && it.direction == FromHead && l.nodes == all && Carry(all, values) && it.next == At(all, 0)
    modifies l, all, it
    ensures l.Valid() && visited == all && l.nodes == Spared(all, doomed)
    ensures Carry(all, values)
  {
    assert Within(all, all);
    HeadStart(all, doomed);
    hide Linked, Distinct, HeadState, At, Spared, Within, Carry;
    visited := [];
    ghost var kept: seq<Node>, i: nat := [], 0;
    while it.next != null
      invariant it.direction == FromHead && l.Valid() && Within(l.nodes, all) && Carry(all, values)
      invariant HeadState(all, i, kept, visited, l.nodes, doomed) && it.next == At(all, i)
      decreases |all| - i
    {
      var n;
      n, kept := HeadStep(l, it, doomed, all, values, i, kept, visited);
      visited := visited + [n];
      i := i + 1;
    }
    HeadEnd(all, i, kept, visited, l.nodes, doomed);
  }

  /** From the head, deleting any of the nodes when they are visited: every node is visited once,
      in order, and the others stay in the list. */
  method WalkFromHead(l: List, doomed: set<Node>) returns (visited: seq<Node>)
    requires l.Valid()
    modifies l, l.nodes
    ensures l.Valid() && visited == old(l.nodes) && l.nodes == Spared(old(l.nodes), doomed)
    ensures Values(visited) == old(Values(l.nodes))
  {
    hide Spared;
    var it := new Iter(l, FromHead);
    visited := WalkForward(l, it, doomed, l.nodes, Values(l.nodes));
  }

  lemma AtNone(s: seq<Node>, i: int)
    requires At(s, i) == null && 0 <= i
    ensures i >= |s|
  {}

  lemma AtThere(s: seq<Node>, i: int)
    requires At(s, i) != null
    ensures 0 <= i < |s| && At(s, i) == s[i]
  {}

  /** After visiting all but the first `i` nodes from the tail: those `i`, then the spared ones of the rest. */
  ghost predicate TailState(all: seq<Node>, i: nat, kept: seq<Node>, visited: seq<Node>, now: seq<Node>,
                            doomed: set<Node>) {
    i <= |all| && Backwards(all, i, visited) && kept == Spared(all[i..], doomed) && now == all[..i] + kept
  }

  /** All but the first `i` nodes, last first. */
  ghost predicate Backwards(all: seq<Node>, i: nat, visited: seq<Node>)
    requires i <= |all|
  {
    |visited| == |all| - i && forall j :: 0 <= j < |visited| ==> visited[j] == all[|all| - 1 - j]
  }

  lemma BackwardsNext(all: seq<Node>, i: nat, visited: seq<Node>)
    requires 0 < i <= |all| && Backwards(all, i, visited)
    ensures Backwards(all, i - 1, visited + [all[i - 1]])
  {}

  lemma TailStart(all: seq<Node>, doomed: set<Node>)
    ensures TailState(all, |all|, [], [], all, doomed)
  {
    assert all[|all|..] == [] && all == all[..|all|] + [];
  }

  lemma TailNext(all: seq<Node>, i: nat, kept: seq<Node>, visited: seq<Node>, now: seq<Node>, doomed: set<Node>)
    requires 0 < i <= |all| && TailState(all, i, kept, visited, now, doomed)
    ensures var k := i - 1;
            && k < |now| && now[k] == all[k] && At(now, k - 1) == At(all, k - 1)
            && TailState(all, k, if all[k] in doomed then kept else [all[k]] + kept, visited + [all[k]],
                         if all[k] in doomed then now[..k] + now[i..] else now, doomed)
  {
    SpliceBack(all, i, kept);
    SparedFirst(all, i - 1, doomed);
    BackwardsNext(all, i, visited);
    hide Spared, Backwards, At;
    if all[i - 1] in doomed {
      assert Spared(all[i - 1..], doomed) == kept;
    } else {
      assert Spared(all[i - 1..], doomed) == [all[i - 1]] + kept;
    }
  }

  lemma TailEnd(all: seq<Node>, i: nat, kept: seq<Node>, visited: seq<Node>, now: seq<Node>, doomed: set<Node>)
    requires TailState(all, i, kept, visited, now, doomed) && At(all, i - 1) == null
    ensures Backwards(all, 0, visited) && now == Spared(all, doomed)
  {
    assert all[0..] == all && [] + kept == kept;
  }

  method TailStep(l: List, it: Iter, doomed: set<Node>, ghost all: seq<Node>, ghost values: seq<Value>, ghost i: nat,
                  ghost kept: seq<Node>, ghost visited: seq<Node>)
    returns (n: Node, ghost kept': seq<Node>, ghost i': nat)
    requires l.Valid() && it.direction == FromTail && TailState(all, i, kept, visited, l.nodes, doomed) &&
               Within(l.nodes, all) && Carry(all, values)
    requires it.next != null && it.next == At(all, i - 1)
    modifies l, all, it
    ensures l.Valid() && i' < i && it.next == At(all, i' - 1) && Within(l.nodes, all)
    ensures TailState(all, i', kept', visited + [n], l.nodes, doomed)
    ensures Carry(all, values)
  {
    hide Linked, Distinct, TailState, At;
    AtThere(all, i - 1);
    TailNext(all, i, kept, visited, l.nodes, doomed);
    WithinLess(l.nodes, i - 1, all);
    n := Visit(l, it, doomed, i - 1);
    i' := i - 1;
    kept' := if n in doomed then kept else [n] + kept;
  }

  method WalkBack(l: List, it: Iter, doomed: set<Node>, ghost all: seq<Node>, ghost values: seq<Value>)
    returns (visited: seq<Node>)
    requires l.Valid() && it.direction == FromTail && l.nodes == all && Carry(all, values) &&
               it.next == At(all, |all| - 1)
    modifies l, all, it
    ensures l.Valid() && Backwards(all, 0, visited) && l.nodes == Spared(all, doomed)
    ensures Carry(all, values)
  {
    assert Within(all, all);
    TailStart(all, doomed);
    hide Linked, Distinct, TailState, Backwards, At, Spared, Within, Carry;
    visited := [];
    ghost var kept: seq<Node>, i: nat := [], |all|;
    while it.next != null
      invariant it.direction == FromTail && l.Valid() && Within(l.nodes, all) && Carry(all, values)
      invariant TailState(all, i, kept, visited, l.nodes, doomed) && it.next == At(all, i - 1)
      decreases i
    {
      var n;
      n, kept, i := TailStep(l, it, doomed, all, values, i, kept, visited);
      visited := visited + [n];
    }
    TailEnd(all, i, kept, visited, l.nodes, doomed);
  }

  /** From the tail, the same in the other direction. */
  method WalkFromTail(l: List, doomed: set<Node>) returns (visited: seq<Node>)
    requires l.Valid()
    modifies l, l.nodes
    ensures l.Valid() && Backwards(old(l.nodes), 0, visited) && l.nodes == Spared(old(l.nodes), doomed)
    ensures Values(old(l.nodes)) == old(Values(l.nodes))
  {
    hide Spared;
    var it := new Iter(l, FromTail);
    visited := WalkBack(l, it, doomed, l.nodes, Values(l.nodes));
  }

  lemma SpliceBack(all: seq<Node>, i: nat, kept: seq<Node>)
    requires 0 < i <= |all|
    ensures var now := all[..i] + kept;
            && i - 1 < |now| && now[i - 1] == all[i - 1] && At(now, i - 2) == At(all, i - 2)
            && now[..i - 1] + now[i..] == all[..i - 1] + kept && now == all[..i - 1] + ([all[i - 1]] + kept)
  {}

  lemma {:induction false} SparedSplit(a: seq<Node>, b: seq<Node>, doomed: set<Node>)
    ensures Spared(a + b, doomed) == Spared(a, doomed) + Spared(b, doomed)
    decreases |b|
  {
    if |b| == 0 {
      assert a + b == a;
    } else {
      assert (a + b)[..|a + b| - 1] == a + b[..|b| - 1];
      SparedSplit(a, b[..|b| - 1], doomed);
    }
  }

  lemma SparedFirst(s: seq<Node>, i: nat, doomed: set<Node>)
    requires i < |s|
    ensures Spared(s[i..], doomed) == (if s[i] in doomed then [] else [s[i]]) + Spared(s[i + 1..], doomed)
  {
    assert s[i..] == [s[i]] + s[i + 1..];
    SparedSplit([s[i]], s[i + 1..], doomed);
    assert Spared([s[i]], doomed) == if s[i] in doomed then [] else [s[i]];
  }
}
