/** What the rules of a selector do, rule by rule, from the text a user writes to the permissions:
    which bits and first arguments each kind of rule changes, which rules are refused, and what the
    kept text is worth. */
module AclRules {
  import opened ByteStrings
  import opened Sds
  import opened AclText
  import opened AclBitmap
  import opened Acl
  import opened AclSelector

  /** Command `i` of the table is the one called `name`, up to case. */
  predicate Called(t: Table, i: nat, name: bytes) {
    && i < |t.commands| && Lower(t.commands[i].name) == Lower(name)
    && forall k :: 0 <= k < i ==> Lower(t.commands[k].name) != Lower(name)
  }

  /** Subcommand `j` of a command is the one called `name`, up to case. */
  predicate SubCalled(c: Acl.Command, j: nat, name: bytes) {
    && j < |c.subs| && Lower(c.subs[j].name) == Lower(name)
    && forall k :: 0 <= k < j ==> Lower(c.subs[k].name) != Lower(name)
  }

  /** A rule as a user writes it. */
  function Signed(allow: bool, name: bytes): bytes {
    [if allow then 43 else 45] + name
  }

  // ------------------------------------------------------------------------------
  // Looking up
  // ------------------------------------------------------------------------------

  lemma IndexIs(names: seq<bytes>, i: nat, name: bytes)
    requires i < |names| && Lower(names[i]) == Lower(name) && forall k :: 0 <= k < i ==> Lower(names[k]) != Lower(name)
    ensures IndexOf(names, name) == i
  {}

  lemma NoIndex(names: seq<bytes>, name: bytes)
    requires forall k :: 0 <= k < |names| ==> Lower(names[k]) != Lower(name)
    ensures IndexOf(names, name) == |names|
  {}

  lemma FindCommand(t: Table, i: nat, name: bytes)
    requires Called(t, i, name) && |name| > 0 && BAR !in name
    ensures Lookup(t, name) == Whole(i)
  {
    NoBar(name);
    IndexIs(Names(t.commands), i, name);
  }

  lemma FindSub(t: Table, i: nat, name: bytes, j: nat, sub: bytes)
    requires Called(t, i, name) && |name| > 0 && BAR !in name && SubCalled(t.commands[i], j, sub) && BAR !in sub
    ensures Lookup(t, name + [BAR] + sub) == Part(i, j)
  {
    var rest := name + [BAR] + sub;
    assert rest[..|name|] == name && rest[|name| + 1..] == sub && rest[|name|] == BAR;
    BarPlaces(rest, |name|);
    FindCommand(t, i, name);
    NoBar(name);
    IndexIs(SubNames(t.commands[i].subs), j, sub);
  }

  lemma FindNothing(t: Table, name: bytes)
    requires BAR !in name && forall k :: 0 <= k < |t.commands| ==> Lower(t.commands[k].name) != Lower(name)
    ensures Lookup(t, name).NoTarget?
  {
    if |name| > 0 {
      NoBar(name);
      NoIndex(Names(t.commands), name);
    }
  }

  /** A rule with a sign is none of the words for all commands. */
  lemma NotAll(allow: bool, name: bytes)
    requires |name| > 0 && name[0] != 64
    ensures var op := Signed(allow, name);
            && Lower(op) != ALLCOMMANDS && Lower(op) != NOCOMMANDS && Lower(op) != PLUS_ALL && Lower(op) != MINUS_ALL
            && op[0] == (if allow then PLUS else MINUS) && op[1..] == name && op[1] != AT_SIGN
  {
    var op := Signed(allow, name);
    assert Lower(op)[0] == op[0] && Lower(op)[1] == LowerChar(name[0]);
  }

  // ------------------------------------------------------------------------------
  // Commands and subcommands
  // ------------------------------------------------------------------------------

  lemma ReadCommandRule(t: Table, allow: bool, i: nat, name: bytes)
    requires Called(t, i, name) && |name| > 0 && BAR !in name && name[0] != 64
    ensures Parse(t, Signed(allow, name)) == Rule(allow, Lower(t.commands[i].name), Whole(i))
  {
    NotAll(allow, name);
    FindCommand(t, i, name);
    hide Lookup, Lower;
  }

  /** `+name` and `-name`: the bits of the command and of its subcommands take the value, its first
      arguments are forgotten, and nothing else changes. */
  lemma CommandRule(t: Table, s: Selector, allow: bool, i: nat, name: bytes)
    requires Called(t, i, name) && |name| > 0 && BAR !in name && name[0] != 64 && |s.bits| == BITS
    ensures var c, u := t.commands[i], Set(t, s, Signed(allow, name));
            && |u.bits| == BITS
            && (forall id :: 0 <= id < BITS && (id == c.id || exists j :: 0 <= j < |c.subs| && c.subs[j].id == id) ==>
                  u.bits[id] == allow)
            && (forall id :: 0 <= id < BITS && id != c.id && (forall j :: 0 <= j < |c.subs| ==> c.subs[j].id != id) ==>
                  u.bits[id] == s.bits[id])
            && u.args == s.args - {c.id}
            && (!allow && c.id < BITS ==> !u.all)
  {
    hide Lower, Parse;
    ReadCommandRule(t, allow, i, name);
    var c := t.commands[i];
    var g := Whole(i);
    assert Touches(t, g, c.id);
    assert forall id :: Clears(t, g, id) <==> id == c.id;
  }

  lemma ReadSubRule(t: Table, allow: bool, i: nat, name: bytes, j: nat, sub: bytes)
    requires Called(t, i, name) && |name| > 0 && BAR !in name && name[0] != 64
    requires SubCalled(t.commands[i], j, sub) && |sub| > 0 && BAR !in sub
    ensures var p := Parse(t, Signed(allow, name + [124] + sub)); p.Rule? && p.allow == allow && p.target == Part(i, j)
  {
    var rest := name + [BAR] + sub;
    NotAll(allow, rest);
    FindSub(t, i, name, j, sub);
    FindCommand(t, i, name);
    assert rest[..|name|] == name && rest[|name| + 1..] == sub && rest[|name|] == BAR;
    BarPlaces(rest, |name|);
    hide Lookup, Lower;
  }

  /** `+name|sub` and `-name|sub`: the bit of the subcommand takes the value, and no other bit
      changes. */
  lemma SubRule(t: Table, s: Selector, allow: bool, i: nat, name: bytes, j: nat, sub: bytes)
    requires Called(t, i, name) && |name| > 0 && BAR !in name && name[0] != 64 && |s.bits| == BITS
    requires SubCalled(t.commands[i], j, sub) && |sub| > 0 && BAR !in sub
    ensures var x, u := t.commands[i].subs[j], Set(t, s, Signed(allow, name + [124] + sub));
            && |u.bits| == BITS
            && (forall id :: 0 <= id < BITS ==> u.bits[id] == if id == x.id then allow else s.bits[id])
            && u.args == s.args - {x.id}
  {
    hide Lower, Parse;
    ReadSubRule(t, allow, i, name, j, sub);
    var g := Part(i, j);
    assert forall id :: Clears(t, g, id) <==> id == t.commands[i].subs[j].id;
  }

  // ------------------------------------------------------------------------------
  // First arguments
  // ------------------------------------------------------------------------------

  lemma ReadArgRule(t: Table, i: nat, name: bytes, arg: bytes)
    requires Called(t, i, name) && |name| > 0 && BAR !in name && name[0] != 64
    requires t.commands[i].subs == [] && |arg| > 0 && BAR !in arg
    ensures var p := Parse(t, Signed(true, name + [124] + arg)); p.Rule? && p.allow && p.target == FirstArg(i, arg)
    ensures Parse(t, Signed(false, name + [124] + arg)) == Refused(ENOENT)
  {
    var rest := name + [BAR] + arg;
    NotAll(true, rest);
    NotAll(false, rest);
    FindCommand(t, i, name);
    assert rest[..|name|] == name && rest[|name| + 1..] == arg && rest[|name|] == BAR;
    BarPlaces(rest, |name|);
    LookupWhole(t, rest, |name|);
    hide Lookup, Lower;
  }

  /** `+name|arg` for a command without subcommands: the argument is allowed, up to case, arguments
      that were allowed stay, no bit changes; `-name|arg` is refused. */
  lemma ArgRule(t: Table, s: Selector, i: nat, name: bytes, arg: bytes, x: bytes, id: nat)
    requires Called(t, i, name) && |name| > 0 && BAR !in name && name[0] != 64
    requires t.commands[i].subs == [] && |arg| > 0 && BAR !in arg
    ensures var c, u := t.commands[i], Set(t, s, Signed(true, name + [124] + arg));
            && u.bits == s.bits
            && (HasArg(ArgsOf(u.args, id), x) <==>
                HasArg(ArgsOf(s.args, id), x) || (id == c.id && Lower(x) == Lower(arg)))
    ensures Set(t, s, Signed(false, name + [124] + arg)) == s
  {
    ReadArgRule(t, i, name, arg);
    hide Lower, Parse, HasArg;
    var c := t.commands[i];
    var list := ArgsOf(s.args, c.id);
    HasArgMore(list, arg, x);
    if HasArg(list, arg) && Lower(x) == Lower(arg) {
      HasArgSame(list, x, arg);
    }
  }

  // ------------------------------------------------------------------------------
  // Categories
  // ------------------------------------------------------------------------------

  /** Some command or subcommand with this id is in the category, a subcommand also through its
      command. */
  predicate InCategory(t: Table, k: nat, id: nat) {
    exists i :: 0 <= i < |t.commands| &&
      var c := t.commands[i];
      || (c.id == id && k in c.categories)
      || exists j :: 0 <= j < |c.subs| && c.subs[j].id == id && (k in c.categories || k in c.subs[j].categories)
  }

  /** `+@category` and `-@category`: exactly the bits of the category take the value. */
  lemma CategoryRule(t: Table, s: Selector, allow: bool, k: nat, name: bytes)
    requires |s.bits| == BITS && k < |t.categories| && Lower(t.categories[k]) == Lower(name)
    requires forall m :: 0 <= m < k ==> Lower(t.categories[m]) != Lower(name)
    requires Lower(name) != [97, 108, 108]
    ensures var u := Set(t, s, Signed(allow, [64] + name));
            && |u.bits| == BITS
            && forall id :: 0 <= id < BITS ==> u.bits[id] == if InCategory(t, k, id) then allow else s.bits[id]
  {
    ReadCategoryRule(t, allow, k, name);
    hide Lower, Parse;
    forall id | 0 <= id < BITS ensures Touches(t, Category(k), id) <==> InCategory(t, k, id) {
      CategoryIs(t, k, id);
    }
  }

  lemma CategoryIs(t: Table, k: nat, id: nat)
    ensures Touches(t, Category(k), id) <==> InCategory(t, k, id)
  {
    if Touches(t, Category(k), id) {
      var i :| 0 <= i < |t.commands| && CategoryTouches(t.commands[i], k, id);
      var c := t.commands[i];
      if !(c.id == id && k in c.categories) {
        var j :| 0 <= j < |c.subs| && c.subs[j].id == id && (k in c.categories || k in c.subs[j].categories);
      }
      assert InCategory(t, k, id);
    }
    if InCategory(t, k, id) {
      var i :| 0 <= i < |t.commands| &&
        var c := t.commands[i];
        || (c.id == id && k in c.categories)
        || exists j :: 0 <= j < |c.subs| && c.subs[j].id == id && (k in c.categories || k in c.subs[j].categories);
      assert CategoryTouches(t.commands[i], k, id);
    }
  }

  lemma ReadCategoryRule(t: Table, allow: bool, k: nat, name: bytes)
    requires k < |t.categories| && Lower(t.categories[k]) == Lower(name)
    requires forall m :: 0 <= m < k ==> Lower(t.categories[m]) != Lower(name)
    requires Lower(name) != [97, 108, 108]
    ensures var p := Parse(t, Signed(allow, [64] + name)); p.Rule? && p.allow == allow && p.target == Category(k)
  {
    NotAllCategory(allow, name);
    IndexIs(t.categories, k, name);
    hide Lower;
  }

  lemma NotAllCategory(allow: bool, name: bytes)
    requires Lower(name) != [97, 108, 108]
    ensures var op := Signed(allow, [64] + name);
            && Lower(op) != ALLCOMMANDS && Lower(op) != NOCOMMANDS && Lower(op) != PLUS_ALL && Lower(op) != MINUS_ALL
            && op[0] == (if allow then PLUS else MINUS) && op[1] == AT_SIGN && op[1..] == [64] + name
            && op[1..][1..] == name
  {
    var op := Signed(allow, [64] + name);
    var head := [op[0], 64];
    assert op == head + name;
    LowerAppend(head, name);
    assert Lower(head) == head;
    hide Lower;
    assert (head + Lower(name))[2..] == Lower(name) && (head + Lower(name))[0] == op[0];
    assert PLUS_ALL[2..] == [97, 108, 108] && MINUS_ALL[2..] == [97, 108, 108];
    assert ALLCOMMANDS[0] == 97 && NOCOMMANDS[0] == 110;
  }

  /** The bit and the first arguments of a command go by its own categories. */
  lemma CategoryCommand(t: Table, s: Selector, allow: bool, k: nat, i: nat)
    requires Valid(t) && i < |t.commands| && |s.bits| == BITS
    ensures var c, u := t.commands[i], Permit(t, s, allow, Category(k));
            && |u.bits| == BITS && c.id < BITS
            && u.bits[c.id] == (if k in c.categories then allow else s.bits[c.id])
            && ArgsOf(u.args, c.id) == if k in c.categories then [] else ArgsOf(s.args, c.id)
  {
    var c := t.commands[i];
    CategoryIs(t, k, c.id);
    assert Clears(t, Category(k), c.id) <==> k in c.categories by {
      if k in c.categories {
        assert CategoryClears(c, k, c.id);
      }
    }
  }

  /** The bit of a subcommand goes by its own categories and by those of its command. */
  lemma CategorySub(t: Table, s: Selector, allow: bool, k: nat, i: nat, j: nat)
    requires Valid(t) && i < |t.commands| && j < |t.commands[i].subs| && |s.bits| == BITS
    requires forall m, n :: 0 <= m < |t.commands| && 0 <= n < |t.commands[m].subs| && (m != i || n != j) ==>
               t.commands[m].subs[n].id != t.commands[i].subs[j].id
    ensures var c, u := t.commands[i], Permit(t, s, allow, Category(k));
            var x := c.subs[j];
            && |u.bits| == BITS && x.id < BITS
            && u.bits[x.id] == if k in c.categories || k in x.categories then allow else s.bits[x.id]
  {
    CategoryIs(t, k, t.commands[i].subs[j].id);
  }

  // ------------------------------------------------------------------------------
  // All and nothing, and refused rules
  // ------------------------------------------------------------------------------

  /** `+@all` and `allcommands` allow everything, also what is not in the table yet; `-@all` and
      `nocommands` nothing.  The text and the first arguments start again from nothing. */
  lemma AllRule(t: Table, s: Selector, op: bytes)
    requires Lower(op) in {[43, 64, 97, 108, 108], [97, 108, 108, 99, 111, 109, 109, 97, 110, 100, 115],
                           [45, 64, 97, 108, 108], [110, 111, 99, 111, 109, 109, 97, 110, 100, 115]}
    ensures var u := Set(t, s, op);
            && |u.bits| == BITS && u.rules == [] && u.args == map[]
            && forall id :: 0 <= id < BITS ==> u.bits[id] == (Lower(op)[0] == 43 || Lower(op)[0] == 97)
  {
    assert PLUS_ALL == [43, 64, 97, 108, 108] && MINUS_ALL == [45, 64, 97, 108, 108];
    assert ALLCOMMANDS == [97, 108, 108, 99, 111, 109, 109, 97, 110, 100, 115];
    assert NOCOMMANDS == [110, 111, 99, 111, 109, 109, 97, 110, 100, 115];
    hide Lower;
  }

  /** Rules that are refused change nothing: an unknown command, an unknown category, a first
      argument of a subcommand, nothing behind the bar, no sign. */
  lemma RefusedRules(t: Table, s: Selector, op: bytes, name: bytes)
    requires |name| > 0 && name[0] != 64
    requires || (BAR !in name && (forall k :: 0 <= k < |t.commands| ==> Lower(t.commands[k].name) != Lower(name)) &&
                 (op == Signed(true, name) || op == Signed(false, name)))
             || (|op| > 0 && op[0] !in {43, 45} && Lower(op) != ALLCOMMANDS && Lower(op) != NOCOMMANDS)
             || op == []
    ensures Parse(t, op).Refused? && Set(t, s, op) == s
    ensures |op| > 0 && op[0] in {43, 45} ==> Parse(t, op).error == ENOENT
    ensures op == [] || op[0] !in {43, 45} ==> Parse(t, op).error == EINVAL
  {
    if op == Signed(true, name) || op == Signed(false, name) {
      NotAll(op == Signed(true, name), name);
      FindNothing(t, name);
      LastBarNone(name);
      hide Lookup, Lower;
    } else {
      assert |op| > 0 ==> Lower(op)[0] == LowerChar(op[0]);
      assert Lower([]) == [];
    }
  }

  lemma LastBarNone(name: bytes)
    requires BAR !in name
    ensures LastBar(name) == |name|
  {}

  lemma RefusedParts(t: Table, i: nat, name: bytes, j: nat, sub: bytes, arg: bytes)
    requires Called(t, i, name) && |name| > 0 && BAR !in name && name[0] != 64
    ensures Parse(t, Signed(true, name + [124])) == Refused(EINVAL)
    ensures SubCalled(t.commands[i], j, sub) && BAR !in sub && BAR !in arg ==>
              Parse(t, Signed(true, name + [124] + sub + [124] + arg)) == Refused(ECHILD)
    ensures |t.commands[i].subs| > 0 && |sub| > 0 && BAR !in sub &&
            (forall k :: 0 <= k < |t.commands[i].subs| ==> Lower(t.commands[i].subs[k].name) != Lower(sub)) ==>
              Parse(t, Signed(true, name + [124] + sub)) == Refused(ENOENT)
  {
    FindCommand(t, i, name);
    var r := name + [BAR];
    NotAll(true, r);
    assert r[..|name|] == name && r[|name| + 1..] == [] && r[|name|] == BAR;
    BarPlaces(r, |name|);
    if SubCalled(t.commands[i], j, sub) && BAR !in sub && BAR !in arg {
      FindSub(t, i, name, j, sub);
      var head := name + [BAR] + sub;
      RefusedChild(t, head, arg);
    }
    if |t.commands[i].subs| > 0 && |sub| > 0 && BAR !in sub &&
       (forall k :: 0 <= k < |t.commands[i].subs| ==> Lower(t.commands[i].subs[k].name) != Lower(sub)) {
      RefusedSub(t, i, name, sub);
    }
    hide Lookup, Lower;
  }

  lemma RefusedChild(t: Table, head: bytes, arg: bytes)
    requires |head| > 0 && head[0] != 64 && Lookup(t, head).Part? && BAR !in arg
    ensures Parse(t, Signed(true, head + [124] + arg)) == Refused(ECHILD)
  {
    var q := head + [BAR] + arg;
    NotAll(true, q);
    assert q[..|head|] == head && q[|head|] == BAR;
    var l := LastBar(q);
    assert l == |head| by {
      assert forall k :: |head| < k < |q| ==> q[k] == arg[k - |head| - 1];
    }
    hide Lookup, Lower;
  }

  lemma RefusedSub(t: Table, i: nat, name: bytes, sub: bytes)
    requires Called(t, i, name) && |name| > 0 && BAR !in name && name[0] != 64
    requires |t.commands[i].subs| > 0 && |sub| > 0 && BAR !in sub
    requires forall k :: 0 <= k < |t.commands[i].subs| ==> Lower(t.commands[i].subs[k].name) != Lower(sub)
    ensures Parse(t, Signed(true, name + [124] + sub)) == Refused(ENOENT)
  {
    var q := name + [BAR] + sub;
    NotAll(true, q);
    FindCommand(t, i, name);
    NoBar(name);
    assert q[..|name|] == name && q[|name| + 1..] == sub && q[|name|] == BAR;
    BarPlaces(q, |name|);
    NoIndex(SubNames(t.commands[i].subs), sub);
  }

  // ------------------------------------------------------------------------------
  // The kept text
  // ------------------------------------------------------------------------------

  /** A rule is about a name if, without its sign, it is the name or goes on with a bar behind it. */
  lemma AboutIs(rule: bytes, name: bytes)
    requires |rule| > 0
    ensures About(rule, name) <==> rule[1..] == name || name + [124] <= rule[1..]
  {
    var r := rule[1..];
    if About(rule, name) {
      assert r[..|name|] == name;
      if |rule| > |name| + 1 {
        assert r[|name|] == BAR && r[..|name| + 1] == name + [124];
      }
    }
    if name + [124] <= r {
      assert r[|name|] == (name + [124])[|name|];
      assert rule[1..|name| + 1] == r[..|name|] == (name + [124])[..|name|];
    }
  }

  /** The text never has two rules about the same name, nor a rule about a part of a name in front
      of a rule about that name. */
  lemma {:induction false} TextMinimal(rules: seq<bytes>, i: nat, j: nat)
    requires NoStale(rules) && (forall k :: 0 <= k < |rules| ==> |rules[k]| > 0) && i < j < |rules|
    ensures rules[i][1..] != rules[j][1..] && !(rules[j][1..] + [124] <= rules[i][1..])
  {
    if i > 0 {
      TextMinimal(rules[1..], i - 1, j - 1);
    } else {
      AboutIs(rules[0], rules[j][1..]);
    }
  }

  /** The text after an accepted rule: the rule in lower case at the end, and in front of it, in
      order, what was there and is not about its name. */
  lemma TextAfter(t: Table, s: Selector, op: bytes, r: bytes)
    requires Parse(t, op).Rule? && |r| > 0
    ensures var u, name := Set(t, s, op), Lower(op)[1..];
            && |u.rules| > 0 && u.rules[|u.rules| - 1] == Lower(op)
            && (r in u.rules[..|u.rules| - 1] <==>
                r in s.rules && r[1..] != name && !(name + [124] <= r[1..]))
  {
    Reparse(t, op);
    var p := Parse(t, op);
    hide Parse, Permit, Lower;
    var w := Without(s.rules, p.name);
    assert Lower(op)[1..] == p.name;
    WithoutMember(s.rules, p.name, r);
    AboutIs(r, p.name);
    assert (w + [Lower(op)])[..|w|] == w;
  }

  // ------------------------------------------------------------------------------
  // The description as a list of rules
  // ------------------------------------------------------------------------------

  /** The words of a description: all or nothing, and then the rules. */
  function Words(s: Selector): seq<bytes>
    requires |s.bits| == BITS
  {
    [if s.bits[RESERVED] then [43, 64, 97, 108, 108] else [45, 64, 97, 108, 108]] + s.rules
  }

  /** Writing down a good selector and giving the words as rules to any selector rebuilds it: its
      bits, its first arguments and its text. */
  lemma DescribedRebuilds(t: Table, s: Selector, other: Selector)
    requires Good(t, s)
    ensures SplitFrom(Described(s), 0, []) == Args(Words(s))
    ensures var r := Replay(t, other, Words(s)); r.Rebuilt? && Same(t, s, r.s) && r.s.rules == s.rules
  {
    DescribedSplits(s);
    DescribeSafe(t, s);
    var first := Words(s)[0];
    SplitRules(s.rules);
    FirstWord(t, other, s.bits[RESERVED]);
    hide Good, Parse, Set, Replay, SplitFrom, Same, Described;
    ReplayMore(t, other, [first], s.rules);
  }

  lemma FirstWord(t: Table, other: Selector, value: bool)
    ensures var w: bytes := if value then [43, 64, 97, 108, 108] else [45, 64, 97, 108, 108];
            Replay(t, other, [w]) == Rebuilt(Uniform(value))
  {
    AllRules(t);
    var w: bytes := if value then [43, 64, 97, 108, 108] else [45, 64, 97, 108, 108];
    assert w == if value then PLUS_ALL else MINUS_ALL;
    hide Parse;
    ReplayOne(t, other, w);
  }

  lemma DescribedSplits(s: Selector)
    requires |s.bits| == BITS && forall k :: 0 <= k < |s.rules| ==> Clean(s.rules[k])
    ensures SplitFrom(Described(s), 0, []) == Args(Words(s))
  {
    hide SplitFrom, JoinRules, Described;
    var w := Words(s);
    assert Clean(w[0]);
    forall k | 0 <= k < |w| ensures Clean(w[k]) {
      assert k > 0 ==> w[k] == s.rules[k - 1];
    }
    SplitRules(w);
    DescribedIs(s);
  }

  lemma DescribedIs(s: Selector)
    requires |s.bits| == BITS && forall k :: 0 <= k < |s.rules| ==> Clean(s.rules[k])
    ensures Described(s) == JoinRules(Words(s))
  {
    var first := if s.bits[RESERVED] then PLUS_ALL else MINUS_ALL;
    assert PLUS_ALL == [43, 64, 97, 108, 108] && MINUS_ALL == [45, 64, 97, 108, 108];
    hide JoinRules, Clean;
    JoinOne(first);
    RulesText(s.rules);
    assert Words(s) == [first] + s.rules;
    if |s.rules| == 0 {
      assert [first] + s.rules == [first];
      assert first + [] == first;
    } else {
      JoinAppend([first], s.rules);
      assert first + ([SPACE] + JoinRules(s.rules)) == first + [SPACE] + JoinRules(s.rules);
    }
  }

  lemma RulesText(rules: seq<bytes>)
    requires forall k :: 0 <= k < |rules| ==> Clean(rules[k])
    ensures |JoinRules(rules)| == 0 <==> |rules| == 0
  {
    JoinNonEmpty(rules);
  }
}
