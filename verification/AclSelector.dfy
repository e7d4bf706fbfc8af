/** The selector as the server keeps it: a bitmap, a table of first arguments and a text buffer,
    all changed in place. */
module AclSelector {
  import opened ByteStrings
  import opened Sds
  import opened AclText
  import opened AclBitmap
  import opened Acl

  datatype Status = OK | ERR(errno: Errno)

  /** From `b` to `a` the bits in `ids` took the value `allow` and the first arguments of the
      commands in `cleared` were forgotten. */
  ghost predicate Changed(b: Selector, a: Selector, ids: set<nat>, cleared: set<nat>, allow: bool) {
    && |a.bits| == |b.bits| && a.rules == b.rules
    && (forall id :: 0 <= id < |b.bits| ==> a.bits[id] == if id in ids then allow else b.bits[id])
    && a.args == b.args - cleared
    && a.all == (b.all && (allow || ids == {}))
  }

  lemma ChangedNothing(b: Selector, allow: bool)
    ensures Changed(b, b, {}, {}, allow)
  {
    assert b.args - {} == b.args;
  }

  lemma ChangedTwice(b: Selector, m: Selector, a: Selector, ids: set<nat>, cleared: set<nat>,
                     ids': set<nat>, cleared': set<nat>, allow: bool)
    requires Changed(b, m, ids, cleared, allow) && Changed(m, a, ids', cleared', allow)
    ensures Changed(b, a, ids + ids', cleared + cleared', allow)
  {
    assert b.args - (cleared + cleared') == (b.args - cleared) - cleared';
    assert ids + ids' == {} <==> ids == {} && ids' == {};
  }

  function SubIds(subs: seq<Sub>): (r: set<nat>)
    ensures forall id :: id in r <==> exists j :: 0 <= j < |subs| && subs[j].id == id
  {
    set j | 0 <= j < |subs| :: subs[j].id
  }

  lemma SubIdsNext(subs: seq<Sub>, j: nat)
    requires j < |subs|
    ensures SubIds(subs[..j + 1]) == SubIds(subs[..j]) + {subs[j].id}
  {
    var a, b := subs[..j + 1], subs[..j];
    forall id | id in SubIds(a) ensures id in SubIds(b) + {subs[j].id} {
      var m :| 0 <= m < |a| && a[m].id == id;
      assert m < j ==> b[m].id == id;
    }
    forall id | id in SubIds(b) ensures id in SubIds(a) {
      var m :| 0 <= m < |b| && b[m].id == id;
      assert a[m].id == id;
    }
    assert a[j].id == subs[j].id;
  }

  /** The changed bits are those a target touches, the cleared arguments those it clears. */
  lemma ChangedIsPermit(t: Table, b: Selector, a: Selector, ids: set<nat>, cleared: set<nat>, allow: bool, g: Target)
    requires |b.bits| == BITS && Changed(b, a, ids, cleared, allow) && !g.FirstArg?
    requires forall id :: id in ids <==> Touches(t, g, id)
    requires forall id :: id in cleared <==> Clears(t, g, id)
    requires forall id :: id in ids ==> id < BITS
    ensures a == Permit(t, b, allow, g)
  {
    var p := Permit(t, b, allow, g);
    assert a.bits == p.bits;
    assert a.args == p.args;
    if ids != {} {
      var id :| id in ids;
      assert Touches(t, g, id);
    }
  }

  class SelectorObject {
    const table: Table
    const allowed: array<bv64>             // allowed_commands
    var allCommands: bool                  // SELECTOR_FLAG_ALLCOMMANDS
    var firstArgs: map<nat, seq<bytes>>    // allowed_firstargs
    var text: array<byte>                  // command_rules
    ghost var rules: seq<bytes>

    ghost predicate Shape()
      reads this, allowed, text
    {
      allowed.Length == WORDS && allowed as object != text as object && Holds(text[..], JoinRules(rules))
    }

    ghost predicate Ok()
      reads this, allowed, text
    {
      Shape() && AllShaped(rules)
    }

    ghost function View(): (s: Selector)
      reads this, allowed
      requires allowed.Length == WORDS
      ensures |s.bits| == BITS
    {
      Selector(BitsOf(allowed[..]), firstArgs, rules, allCommands)
    }

    /** `ACLCreateSelector`. */
    constructor (table: Table)
      ensures Ok() && this.table == table && View() == Uniform(false) && fresh(allowed) && fresh(text)
    {
      this.table := table;
      allowed := new bv64[WORDS](_ => Filled(false));
      allCommands := false;
      firstArgs := map[];
      text := new byte[1](_ => 0);
      rules := [];
      new;
      FilledBits(allowed[..], false);
      assert text[..0] == [] && View().bits == Uniform(false).bits;
    }

    /** `ACLSetSelectorCommandBit`. */
    method SetCommandBit(id: nat, value: bool)
      requires allowed.Length == WORDS
      modifies `allCommands, allowed
      ensures id >= BITS ==> View() == old(View())
      ensures id < BITS ==> Changed(old(View()), View(), {id}, {}, value)
    {
      if id >= BITS {
        return;
      }
      PackedBits(allowed[..], id, value);
      var word, bit := id / 64, Mask(id % 64);
      allowed[word] := if value then With(allowed[word], bit) else Less(allowed[word], bit);
      assert allowed[..] == PutBit(old(allowed[..]), id, value);
      if !value {
        allCommands := false;
      }
      assert firstArgs - {} == firstArgs;
    }

    /** `ACLChangeSelectorPerm`: a command and its subcommands. */
    method ChangePerm(id: nat, subs: seq<Sub>, allow: bool)
      requires allowed.Length == WORDS && id < BITS && forall j :: 0 <= j < |subs| ==> subs[j].id < BITS
      modifies `allCommands, `firstArgs, allowed
      ensures Changed(old(View()), View(), {id} + SubIds(subs), {id}, allow)
    {
      ghost var before := View();
      SetCommandBit(id, allow);
      firstArgs := firstArgs - {id};
      var j := 0;
      assert SubIds(subs[..0]) == {} && {id} + {} == {id};
      assert Changed(before, View(), {id} + SubIds(subs[..0]), {id}, allow);
      while j < |subs|
        invariant 0 <= j <= |subs|
        invariant Changed(before, View(), {id} + SubIds(subs[..j]), {id}, allow)
      {
        ghost var middle := View();
        SetCommandBit(subs[j].id, allow);
        SubIdsNext(subs, j);
        ChangedTwice(before, middle, View(), {id} + SubIds(subs[..j]), {id}, {subs[j].id}, {}, allow);
        assert {id} + SubIds(subs[..j]) + {subs[j].id} == {id} + SubIds(subs[..j + 1]) && {id} + {} == {id};
        j := j + 1;
      }
      assert subs[..j] == subs;
    }

    /** The subcommands of one command that are in a category. */
    method ChangeSubs(subs: seq<Sub>, k: nat, allow: bool) returns (ghost ids: set<nat>)
      requires allowed.Length == WORDS && forall j :: 0 <= j < |subs| ==> subs[j].id < BITS
      modifies `allCommands, `firstArgs, allowed
      ensures Changed(old(View()), View(), ids, ids, allow)
      ensures forall id :: id in ids <==> exists j :: 0 <= j < |subs| && k in subs[j].categories && subs[j].id == id
    {
      ghost var before := View();
      ids := {};
      ChangedNothing(before, allow);
      var j := 0;
      while j < |subs|
        invariant 0 <= j <= |subs|
        invariant Changed(before, View(), ids, ids, allow)
        invariant forall id :: id in ids <==> exists m :: 0 <= m < j && k in subs[m].categories && subs[m].id == id
      {
        if k in subs[j].categories {
          ghost var middle := View();
          ChangePerm(subs[j].id, [], allow);
          ghost var one := {subs[j].id};
          assert one + SubIds([]) == one;
          ChangedTwice(before, middle, View(), ids, ids, one, one, allow);
          ids := ids + one;
        }
        j := j + 1;
      }
    }

    /** One command of the table, and then its subcommands. */
    method ChangeOne(c: Acl.Command, k: nat, allow: bool) returns (ghost ids: set<nat>, ghost cleared: set<nat>)
      requires allowed.Length == WORDS && c.id < BITS && forall j :: 0 <= j < |c.subs| ==> c.subs[j].id < BITS
      modifies `allCommands, `firstArgs, allowed
      ensures Changed(old(View()), View(), ids, cleared, allow)
      ensures forall id :: id in ids <==> CategoryTouches(c, k, id)
      ensures forall id :: id in cleared <==> CategoryClears(c, k, id)
    {
      ghost var before := View();
      ids, cleared := {}, {};
      ChangedNothing(before, allow);
      if k in c.categories {
        ChangePerm(c.id, c.subs, allow);
        ids, cleared := {c.id} + SubIds(c.subs), {c.id};
      }
      ghost var middle := View();
      ghost var more := ChangeSubs(c.subs, k, allow);
      ChangedTwice(before, middle, View(), ids, cleared, more, more, allow);
      ids, cleared := ids + more, cleared + more;
    }

    /** `ACLSetSelectorCommandBitsForCategory`. */
    method ChangeCategory(k: nat, allow: bool)
      requires allowed.Length == WORDS && Valid(table)
      modifies `allCommands, `firstArgs, allowed
      ensures View() == Permit(table, old(View()), allow, Category(k))
    {
      ghost var before := View();
      ghost var ids: set<nat>, cleared: set<nat> := {}, {};
      ChangedNothing(before, allow);
      var i := 0;
      while i < |table.commands|
        invariant 0 <= i <= |table.commands|
        invariant Changed(before, View(), ids, cleared, allow)
        invariant forall id :: id in ids ==> id < BITS
        invariant forall id :: id in ids <==> exists m :: 0 <= m < i && CategoryTouches(table.commands[m], k, id)
        invariant forall id :: id in cleared <==> exists m :: 0 <= m < i && CategoryClears(table.commands[m], k, id)
      {
        ghost var middle := View();
        ghost var ids', cleared' := ChangeOne(table.commands[i], k, allow);
        ChangedTwice(before, middle, View(), ids, cleared, ids', cleared', allow);
        ids, cleared := ids + ids', cleared + cleared';
        i := i + 1;
      }
      ChangedIsPermit(table, before, View(), ids, cleared, allow, Category(k));
    }

    /** `ACLAddAllowedFirstArg`. */
    method AddFirstArg(id: nat, arg: bytes)
      modifies `firstArgs
      ensures firstArgs == AddArg(old(firstArgs), id, arg)
    {
      var list := ArgsOf(firstArgs, id);
      var items := 0;
      while items < |list|
        invariant 0 <= items <= |list| && firstArgs == old(firstArgs)
        invariant forall k :: 0 <= k < items ==> Lower(list[k]) != Lower(arg)
      {
        if Lower(list[items]) == Lower(arg) {
          return;
        }
        items := items + 1;
      }
      firstArgs := firstArgs[id := list + [arg]];
    }

    /** `ACLUpdateCommandRules`: the rules about the name go, in place, then the new one is added. */
    method UpdateCommandRules(rule: bytes, allow: bool)
      requires Ok() && 0 !in rule
      modifies `text, `rules, text
      ensures Shape() && rules == UpdateRules(old(rules), allow, Lower(rule)) && fresh(text)
      ensures SPACE !in rule ==> Ok()
    {
      var name := Lower(rule);
      RemoveRule(text, name, rules);
      ghost var kept := Without(rules, name);
      WithoutShaped(rules, name);
      var len := Strlen(text, 0, JoinRules(kept));
      var x := Text(allow, name);
      text := Concatenated(text, len, x, kept);
      rules := kept + [x];
      LowerKeeps(rule);
      UpdateShaped(old(rules), rule, allow);
    }

    /** A command or a subcommand is allowed or denied. */
    method PermitTarget(g: Target, allow: bool)
      requires allowed.Length == WORDS && Valid(table)
      requires (g.Whole? && g.i < |table.commands|) ||
                 (g.Part? && g.i < |table.commands| && g.j < |table.commands[g.i].subs|)
      modifies `allCommands, `firstArgs, allowed
      ensures View() == Permit(table, old(View()), allow, g)
    {
      var c := table.commands[g.i];
      ghost var before := View();
      if g.Whole? {
        ChangePerm(c.id, c.subs, allow);
        ChangedIsPermit(table, before, View(), {c.id} + SubIds(c.subs), {c.id}, allow, g);
      } else {
        ChangePerm(c.subs[g.j].id, [], allow);
        ghost var one := {c.subs[g.j].id};
        assert one + SubIds([]) == one;
        ChangedIsPermit(table, before, View(), one, one, allow, g);
      }
    }

    /** `+name` without a bar, and `-name`. */
    method SetCommand(rest: bytes, allow: bool) returns (r: Status)
      requires Valid(table) && Ok() && 0 !in rest
      modifies this, allowed, text
      ensures var g := Lookup(table, rest);
              var p := if g.NoTarget? then Refused(ENOENT) else Rule(allow, Lower(FullName(table, g)), g);
              && Shape() && View() == Perform(table, old(View()), p) && r == StatusOf(p)
      ensures SPACE !in rest ==> Ok()
      ensures text == old(text) || fresh(text)
    {
      var g := Lookup(table, rest);
      if g.NoTarget? {
        return ERR(ENOENT);
      }
      LookupName(table, rest);
      LookupPlain(table, rest);
      hide Lookup, Parse, Permit, Valid;
      PermitTarget(g, allow);
      UpdateCommandRules(FullName(table, g), allow);
      r := OK;
    }

    /** `+command|part`. */
    method AllowPart(rest: bytes) returns (r: Status)
      requires Valid(table) && Ok() && 0 !in rest && LastBar(rest) < |rest|
      modifies this, allowed, text
      ensures var p := ParseAllow(table, rest);
              Shape() && View() == Perform(table, old(View()), p) && r == StatusOf(p)
      ensures SPACE !in rest ==> Ok()
      ensures text == old(text) || fresh(text)
    {
      hide Lookup, Parse, Permit, Valid;
      var l := LastBar(rest);
      var g := Lookup(table, rest[..l]);
      if g.NoTarget? {
        return ERR(ENOENT);
      }
      if g.Part? {
        return ERR(ECHILD);
      }
      if l + 1 == |rest| {
        return ERR(EINVAL);
      }
      if |table.commands[g.i].subs| > 0 {
        var h := Lookup(table, rest);
        if h.NoTarget? {
          return ERR(ENOENT);
        }
        PermitTarget(h, true);
      } else {
        ghost var before := View();
        AddFirstArg(table.commands[g.i].id, rest[l + 1..]);
        ArgPermit(table, before, g.i, rest[l + 1..]);
      }
      UpdateCommandRules(rest, true);
      r := OK;
    }

    /** `ACLSetSelectorCategory`. */
    method SetCategory(rest: bytes, allow: bool) returns (r: Status)
      requires Valid(table) && Ok() && 0 !in rest && |rest| > 0
      modifies this, allowed, text
      ensures var p := ParseCategory(table, allow, rest);
              Shape() && View() == Perform(table, old(View()), p) && r == StatusOf(p)
      ensures SPACE !in rest ==> Ok()
      ensures text == old(text) || fresh(text)
    {
      hide Permit, Valid;
      var k := IndexOf(table.categories, rest[1..]);
      if k == |table.categories| {
        return ERR(ENOENT);
      }
      ghost var before := View();
      UpdateCommandRules(rest, allow);
      ghost var middle := View();
      ChangeCategory(k, allow);
      PermitRules(table, before, middle, allow, Category(k));
      r := OK;
    }

    /** `allcommands` and `nocommands`. */
    method SetUniform(value: bool)
      requires Shape()
      modifies this, allowed, text
      ensures Ok() && View() == Uniform(value) && text == old(text)
    {
      forall i | 0 <= i < WORDS {
        allowed[i] := Filled(value);
      }
      allCommands := value;
      text[0] := 0;
      rules := [];
      firstArgs := map[];
      FilledBits(allowed[..], value);
      assert text[..0] == [] && View().bits == Uniform(value).bits;
    }

    /** The command branches of `ACLSetSelector`. */
    method SetSelector(op: bytes) returns (r: Status)
      requires Valid(table) && Ok() && 0 !in op && IsCommandRule(op)
      modifies this, allowed, text
      ensures Shape() && View() == Set(table, old(View()), op) && r == StatusOf(Parse(table, op))
      ensures SPACE !in op ==> Ok()
      ensures text == old(text) || fresh(text)
    {
      hide Valid, Permit, Lookup, ParseCategory;
      if Lower(op) == ALLCOMMANDS || Lower(op) == PLUS_ALL {
        SetUniform(true);
        r := OK;
      } else if Lower(op) == NOCOMMANDS || Lower(op) == MINUS_ALL {
        SetUniform(false);
        r := OK;
      } else {
        RestOf(op);
        var rest := op[1..];
        if |op| > 1 && op[1] == AT_SIGN {
          r := SetCategory(rest, op[0] == PLUS);
        } else if op[0] == PLUS && LastBar(rest) < |rest| {
          r := AllowPart(rest);
        } else {
          r := SetCommand(rest, op[0] == PLUS);
        }
      }
    }

    /** The other selector, started from `+@all` or `-@all`. */
    static method Fake(table: Table, future: bool) returns (fake: SelectorObject)
      requires Valid(table)
      ensures fake.Ok() && fake.table == table && fake.View() == Uniform(future)
      ensures fresh(fake) && fresh(fake.allowed) && fresh(fake.text)
    {
      fake := new SelectorObject(table);
      AllRules(table);
      var res := fake.SetSelector(if future then PLUS_ALL else MINUS_ALL);
    }

    /** The rules of a good selector are applied to this one, which must accept them all. */
    method ApplyAll(rules: seq<bytes>, ghost s: Selector) returns (accepted: bool)
      requires Valid(table) && Ok() && Good(table, s) && rules == s.rules && View() == Uniform(s.bits[RESERVED])
      modifies this, allowed, text
      ensures accepted && Replay(table, Uniform(s.bits[RESERVED]), rules) == Rebuilt(View())
      ensures Ok() && (text == old(text) || fresh(text))
    {
      ghost var init := Uniform(s.bits[RESERVED]);
      hide Valid, Good, Set, Parse, JoinRules, Holds, AllShaped, Uniform, Replay;
      assert rules[..0] == [];
      ReplayNothing(table, init);
      accepted := true;
      var i := 0;
      while i < |rules|
        invariant 0 <= i <= |rules| && Ok() && accepted && (text == old(text) || fresh(text))
        invariant Replay(table, init, rules[..i]) == Rebuilt(View())
      {
        GoodRule(table, s, i);
        ReplayStep(table, init, rules, i, View());
        var res := SetSelector(rules[i]);
        accepted := res == OK;
        i := i + 1;
      }
      assert rules[..i] == rules;
    }

    /** `memcmp` of the bitmaps. */
    method SameBitmap(other: SelectorObject) returns (same: bool)
      requires allowed.Length == WORDS == other.allowed.Length
      ensures same == (View().bits == other.View().bits)
    {
      var k := 0;
      while k < WORDS && allowed[k] == other.allowed[k]
        invariant 0 <= k <= WORDS && allowed[..k] == other.allowed[..k]
      {
        k := k + 1;
      }
      same := k == WORDS;
      assert k < WORDS ==> allowed[..][k] != other.allowed[..][k];
      SameWords(allowed[..], other.allowed[..]);
    }

    /** `ACLSelectorCanExecuteFutureCommands`. */
    method FutureCommands() returns (r: bool)
      requires allowed.Length == WORDS
      ensures r == View().bits[RESERVED]
    {
      r := Test(allowed[RESERVED / 64], Mask(RESERVED % 64));
    }

    /** `ACLDescribeSelectorCommandRules`; `panicked` stands for its assertions and its panic. */
    method Describe() returns (out: bytes, panicked: bool)
      requires Valid(table) && Ok() && Good(table, View())
      ensures !panicked && out == Described(View())
    {
      hide Valid, Good, JoinRules, AllShaped, Uniform, Replay, SelfCheck, Holds, SplitFrom;
      var future := FutureCommands();
      out := (if future then PLUS_ALL else MINUS_ALL) + [SPACE];
      var fake := Fake(table, future);
      var len := Strlen(text, 0, JoinRules(rules));
      HoldsText(text[..], JoinRules(rules));
      var line := text[..len];
      assert line == JoinRules(rules);
      var argv := SplitArgs(line);
      GoodRules(table, View());
      if argv.Unbalanced? {
        return out, true;
      }
      var accepted := fake.ApplyAll(argv.argv, View());
      if len > 0 {
        out := out + line + [SPACE];
      }
      out := out[..|out| - 1];
      var same := SameBitmap(fake);
      assert fake.View().bits == View().bits;
      panicked := !accepted || !same;
    }
  }

  /** The text of the description. */
  function Described(s: Selector): bytes
    requires |s.bits| == BITS
  {
    (if s.bits[RESERVED] then PLUS_ALL else MINUS_ALL) +
    if |JoinRules(s.rules)| == 0 then [] else [SPACE] + JoinRules(s.rules)
  }

  lemma AllRules(t: Table)
    ensures Parse(t, PLUS_ALL) == AllCommands && Parse(t, MINUS_ALL) == NoCommands
    ensures IsCommandRule(PLUS_ALL) && IsCommandRule(MINUS_ALL)
    ensures 0 !in PLUS_ALL && 0 !in MINUS_ALL && SPACE !in PLUS_ALL && SPACE !in MINUS_ALL
  {
    assert Lower(PLUS_ALL) == PLUS_ALL && Lower(MINUS_ALL) == MINUS_ALL;
    assert |ALLCOMMANDS| == 11 && |NOCOMMANDS| == 10 && MINUS_ALL[0] == MINUS && PLUS_ALL[0] == PLUS;
  }

  lemma HoldsText(buf: bytes, text: bytes)
    requires Holds(buf, text)
    ensures |text| < |buf| && buf[..|text|] == text
  {}

  lemma GoodRules(t: Table, s: Selector)
    requires Good(t, s)
    ensures |s.bits| == BITS && SplitFrom(JoinRules(s.rules), 0, []) == Args(s.rules)
    ensures var r := Replay(t, Uniform(s.bits[RESERVED]), s.rules); r.Rebuilt? && r.s.bits == s.bits
  {
    SplitRules(s.rules);
    hide SplitFrom, Replay, Tracked, Value, Clean;
    DescribeSafe(t, s);
  }

  lemma GoodRule(t: Table, s: Selector, i: nat)
    requires Good(t, s) && i < |s.rules|
    ensures var r := s.rules[i]; IsCommandRule(r) && 0 !in r && SPACE !in r && Parse(t, r).Rule?
  {
    var r := s.rules[i];
    assert Canonical(t, r) && Clean(r);
    ParseRange(t, r);
    CleanNoSpace(r);
  }

  lemma CleanNoSpace(r: bytes)
    requires Clean(r)
    ensures SPACE !in r && 0 !in r
  {}

  /** `sdscat` of a space, unless the string is empty, and of the rule. */
  method Concatenated(text: array<byte>, len: nat, x: bytes, ghost kept: seq<bytes>) returns (r: array<byte>)
    requires Holds(text[..], JoinRules(kept)) && len == |JoinRules(kept)| && AllShaped(kept) && 0 !in x
    ensures fresh(r) && Holds(r[..], JoinRules(kept + [x]))
  {
    var front := text[..len];
    var whole := if len == 0 then x else front + [SPACE] + x;
    r := new byte[|whole| + 1](i requires 0 <= i <= |whole| => if i < |whole| then whole[i] else 0);
    assert r[..|whole|] == whole;
    JoinNonEmpty(kept);
    if |kept| == 0 {
      assert kept + [x] == [x];
    } else {
      JoinAppend(kept, [x]);
    }
    JoinOne(x);
    assert whole == JoinRules(kept + [x]);
  }

  lemma UpdateShaped(rules: seq<bytes>, rule: bytes, allow: bool)
    requires AllShaped(rules)
    ensures SPACE !in rule && 0 !in rule ==> AllShaped(UpdateRules(rules, allow, Lower(rule)))
  {
    var w, x := Without(rules, Lower(rule)), Text(allow, Lower(rule));
    LowerKeeps(rule);
    if SPACE !in rule && 0 !in rule {
      forall k | 1 <= k < |x| ensures x[k] != SPACE {
        assert x[k] == LowerChar(rule[k - 1]) && rule[k - 1] in rule;
      }
      assert Shaped(x);
      WithoutShaped(rules, Lower(rule));
    }
  }

  lemma WithoutShaped(rules: seq<bytes>, name: bytes)
    requires AllShaped(rules)
    ensures AllShaped(Without(rules, name))
  {
    var w := Without(rules, name);
    forall i | 0 <= i < |w| ensures Shaped(w[i]) {
      WithoutMember(rules, name, w[i]);
      assert w[i] in w;
    }
  }

  /** What an accepted or refused rule returns. */
  function StatusOf(p: Parsed): Status {
    if p.Refused? then ERR(p.error) else OK
  }

  lemma LookupPlain(t: Table, s: bytes)
    requires Valid(t) && !Lookup(t, s).NoTarget?
    ensures var n := FullName(t, Lookup(t, s)); 0 !in n && SPACE !in n
  {
    var g := Lookup(t, s);
    hide Lookup;
    var c := t.commands[g.i];
    assert PlainName(c.name);
    PlainNoSpace(c.name);
    if g.Part? {
      assert PlainName(c.subs[g.j].name);
      PlainNoSpace(c.subs[g.j].name);
    }
  }

  lemma PlainNoSpace(s: bytes)
    requires PlainName(s)
    ensures SPACE !in s && 0 !in s
  {}

  lemma RestOf(op: bytes)
    requires |op| > 0
    ensures 0 in op[1..] ==> 0 in op
    ensures SPACE in op[1..] ==> SPACE in op
  {}

  lemma ArgPermit(t: Table, s: Selector, i: nat, arg: bytes)
    requires i < |t.commands|
    ensures Permit(t, s, true, FirstArg(i, arg)) == s.(args := AddArg(s.args, t.commands[i].id, arg))
  {}

  lemma PermitRules(t: Table, s: Selector, u: Selector, allow: bool, g: Target)
    requires u == s.(rules := u.rules)
    ensures Permit(t, u, allow, g) == Permit(t, s, allow, g).(rules := u.rules)
  {}
}
