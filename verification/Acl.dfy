/** The command permissions of an ACL selector: a bitmap of allowed commands, lists of allowed
    first arguments, and the text of the rules that led there. */
module Acl {
  import opened ByteStrings
  import opened Sds
  import opened AclText
  import opened AclBitmap

  datatype Sub = Sub(name: bytes, id: nat, categories: set<nat>)

  datatype Command = Command(name: bytes, id: nat, categories: set<nat>, subs: seq<Sub>)

  /** `server.orig_commands`, and the names of the command categories. */
  datatype Table = Table(commands: seq<Command>, categories: seq<bytes>)

  /** The bit that only `+@all` sets. */
  const RESERVED: nat := BITS - 1

  // ------------------------------------------------------------------------------
  // Names
  // ------------------------------------------------------------------------------

  /** `sdstolower`; two strings are the same to `strcasecmp` if they are equal in lower case. */
  function Lower(s: bytes): (r: bytes)
    ensures |r| == |s|
  {
    seq(|s|, i requires 0 <= i < |s| => LowerChar(s[i]))
  }

  lemma LowerTwice(s: bytes)
    ensures Lower(Lower(s)) == Lower(s)
  {}

  lemma LowerAppend(a: bytes, b: bytes)
    ensures Lower(a + b) == Lower(a) + Lower(b)
  {}

  lemma LowerSlice(s: bytes, i: nat)
    requires i <= |s|
    ensures Lower(s)[..i] == Lower(s[..i]) && Lower(s)[i..] == Lower(s[i..])
  {}

  lemma LowerKeeps(s: bytes)
    ensures Clean(Lower(s)) <==> Clean(s)
    ensures 0 in Lower(s) <==> 0 in s
    ensures BAR in Lower(s) <==> BAR in s
  {
    var r := Lower(s);
    assert forall i :: 0 <= i < |s| ==>
                         && PlainChar(r[i]) == PlainChar(s[i])
                         && (r[i] == 0 <==> s[i] == 0) && (r[i] == BAR <==> s[i] == BAR);
    if 0 in r {
      var i :| 0 <= i < |r| && r[i] == 0;
      assert s[i] == 0;
    }
    if 0 in s {
      var i :| 0 <= i < |s| && s[i] == 0;
      assert r[i] == 0;
    }
    if BAR in r {
      var i :| 0 <= i < |r| && r[i] == BAR;
      assert s[i] == BAR;
    }
    if BAR in s {
      var i :| 0 <= i < |s| && s[i] == BAR;
      assert r[i] == BAR;
    }
    if |s| > 0 {
      assert IsSpace(r[0]) == IsSpace(s[0]);
    }
    if forall i :: 0 <= i < |r| ==> PlainChar(r[i]) {
      assert forall i :: 0 <= i < |s| ==> PlainChar(r[i]) ==> PlainChar(s[i]);
    }
  }

  /** The first of `names` that is `name` up to case; `|names|` if there is none. */
  function IndexOf(names: seq<bytes>, name: bytes): (i: nat)
    ensures i <= |names| && (i < |names| ==> Lower(names[i]) == Lower(name))
    ensures forall k :: 0 <= k < i ==> Lower(names[k]) != Lower(name)
  {
    if |names| == 0 then 0
    else if Lower(names[0]) == Lower(name) then 0
    else 1 + IndexOf(names[1..], name)
  }

  lemma {:induction false} IndexOfSame(names: seq<bytes>, a: bytes, b: bytes)
    requires Lower(a) == Lower(b)
    ensures IndexOf(names, a) == IndexOf(names, b)
  {
    if |names| > 0 {
      IndexOfSame(names[1..], a, b);
    }
  }

  function FirstBar(s: bytes): (i: nat)
    ensures i <= |s| && (i < |s| ==> s[i] == BAR) && forall k :: 0 <= k < i ==> s[k] != BAR
  {
    if |s| == 0 || s[0] == BAR then 0 else 1 + FirstBar(s[1..])
  }

  /** `strrchr`; `|s|` if there is no bar. */
  function LastBar(s: bytes): (i: nat)
    ensures i <= |s| && (i < |s| ==> s[i] == BAR && forall k :: i < k < |s| ==> s[k] != BAR)
    ensures i == |s| ==> BAR !in s
  {
    if |s| == 0 then 0
    else if s[|s| - 1] == BAR then |s| - 1
    else var i := LastBar(s[..|s| - 1]); if i == |s| - 1 then |s| else i
  }

  // ------------------------------------------------------------------------------
  // Looking commands up
  // ------------------------------------------------------------------------------

  /** What a rule is about. */
  datatype Target = NoTarget | Whole(i: nat) | Part(i: nat, j: nat) | FirstArg(i: nat, arg: bytes) | Category(k: nat)

  function Names(cs: seq<Command>): (r: seq<bytes>)
    ensures |r| == |cs| && forall i :: 0 <= i < |cs| ==> r[i] == cs[i].name
  {
    seq(|cs|, i requires 0 <= i < |cs| => cs[i].name)
  }

  function SubNames(cs: seq<Sub>): (r: seq<bytes>)
    ensures |r| == |cs| && forall i :: 0 <= i < |cs| ==> r[i] == cs[i].name
  {
    seq(|cs|, i requires 0 <= i < |cs| => cs[i].name)
  }

  /** `ACLLookupCommand`: a command, or a command and a subcommand with a bar between them. */
  function Lookup(t: Table, s: bytes): (r: Target)
    ensures r.NoTarget? || (r.Whole? && r.i < |t.commands|) ||
            (r.Part? && r.i < |t.commands| && r.j < |t.commands[r.i].subs|)
  {
    var f := FirstBar(s);
    if |s| == 0 then NoTarget
    else
      var i := IndexOf(Names(t.commands), s[..f]);
      if i == |t.commands| then NoTarget
      else if f == |s| then Whole(i)
      else if BAR in s[f + 1..] || |t.commands[i].subs| == 0 then NoTarget
      else
        var j := IndexOf(SubNames(t.commands[i].subs), s[f + 1..]);
        if j == |t.commands[i].subs| then NoTarget else Part(i, j)
  }

  function FullName(t: Table, g: Target): bytes
    requires (g.Whole? && g.i < |t.commands|) || (g.Part? && g.i < |t.commands| && g.j < |t.commands[g.i].subs|)
  {
    if g.Whole? then t.commands[g.i].name else t.commands[g.i].name + [BAR] + t.commands[g.i].subs[g.j].name
  }

  /** A name that can stand in a rule. */
  predicate PlainName(s: bytes) {
    |s| > 0 && BAR !in s && 0 !in s && forall k :: 0 <= k < |s| ==> PlainChar(s[k])
  }

  predicate Valid(t: Table) {
    && (forall i :: 0 <= i < |t.commands| ==>
          var c := t.commands[i];
          && PlainName(c.name) && c.name[0] != AT_SIGN && c.id < RESERVED
          && forall j :: 0 <= j < |c.subs| ==> PlainName(c.subs[j].name) && c.subs[j].id < RESERVED)
    && (forall i, j, k :: 0 <= i < |t.commands| && 0 <= k < |t.commands| && 0 <= j < |t.commands[i].subs| ==>
          t.commands[i].subs[j].id != t.commands[k].id)
    && (forall i, k :: 0 <= i < k < |t.commands| ==> t.commands[i].id != t.commands[k].id)
    && (forall k :: 0 <= k < |t.categories| ==> PlainName(t.categories[k]) && Lower(t.categories[k]) != ALL)
  }

  // ------------------------------------------------------------------------------
  // Reading a rule
  // ------------------------------------------------------------------------------

  const ALL: bytes := [97, 108, 108]
  const PLUS_ALL: bytes := [PLUS, AT_SIGN] + ALL
  const MINUS_ALL: bytes := [MINUS, AT_SIGN] + ALL
  const ALLCOMMANDS: bytes := ALL + [99, 111, 109, 109, 97, 110, 100, 115]
  const NOCOMMANDS: bytes := [110, 111, 99, 111, 109, 109, 97, 110, 100, 115]

  datatype Errno = ENOENT | ECHILD | EINVAL

  datatype Parsed = AllCommands | NoCommands | Rule(allow: bool, name: bytes, target: Target) | Refused(error: Errno)

  predicate IsCommandRule(op: bytes) {
    Lower(op) == ALLCOMMANDS || Lower(op) == NOCOMMANDS || (|op| > 0 && (op[0] == PLUS || op[0] == MINUS))
  }

  function ParseAllow(t: Table, rest: bytes): Parsed {
    var l := LastBar(rest);
    if l == |rest| then
      var g := Lookup(t, rest);
      if g.NoTarget? then Refused(ENOENT) else Rule(true, Lower(FullName(t, g)), g)
    else
      var g := Lookup(t, rest[..l]);
      if g.NoTarget? then Refused(ENOENT)
      else if g.Part? then Refused(ECHILD)
      else if l + 1 == |rest| then Refused(EINVAL)
      else if |t.commands[g.i].subs| > 0 then
        var h := Lookup(t, rest);
        if h.NoTarget? then Refused(ENOENT) else Rule(true, Lower(rest), h)
      else Rule(true, Lower(rest), FirstArg(g.i, rest[l + 1..]))
  }

  function ParseDeny(t: Table, rest: bytes): Parsed {
    var g := Lookup(t, rest);
    if g.NoTarget? then Refused(ENOENT) else Rule(false, Lower(FullName(t, g)), g)
  }

  function ParseCategory(t: Table, allow: bool, rest: bytes): Parsed
    requires |rest| > 0
  {
    var k := IndexOf(t.categories, rest[1..]);
    if k == |t.categories| then Refused(ENOENT) else Rule(allow, Lower(rest), Category(k))
  }

  /** The command branches of `ACLSetSelector`. */
  function Parse(t: Table, op: bytes): Parsed {
    if Lower(op) == ALLCOMMANDS || Lower(op) == PLUS_ALL then AllCommands
    else if Lower(op) == NOCOMMANDS || Lower(op) == MINUS_ALL then NoCommands
    else if |op| == 0 || (op[0] != PLUS && op[0] != MINUS) then Refused(EINVAL)
    else if |op| > 1 && op[1] == AT_SIGN then ParseCategory(t, op[0] == PLUS, op[1..])
    else if op[0] == PLUS then ParseAllow(t, op[1..])
    else ParseDeny(t, op[1..])
  }

  function Text(allow: bool, name: bytes): bytes {
    [if allow then PLUS else MINUS] + name
  }

  /** The same rule with its first argument in lower case. */
  function LowerArg(p: Parsed): Parsed {
    if p.Rule? && p.target.FirstArg? then p.(target := FirstArg(p.target.i, Lower(p.target.arg))) else p
  }

  lemma LookupName(t: Table, s: bytes)
    requires !Lookup(t, s).NoTarget?
    ensures Lower(FullName(t, Lookup(t, s))) == Lower(s)
    ensures Lookup(t, s).Whole? <==> BAR !in s
  {
    var f, g := FirstBar(s), Lookup(t, s);
    if g.Whole? {
      assert s[..f] == s;
    } else {
      assert s == s[..f] + [BAR] + s[f + 1..] && s[f] == BAR;
      LowerAppend(s[..f] + [BAR], s[f + 1..]);
      LowerAppend(s[..f], [BAR]);
      var c := t.commands[g.i];
      LowerAppend(c.name + [BAR], c.subs[g.j].name);
      LowerAppend(c.name, [BAR]);
    }
  }

  lemma LookupLower(t: Table, s: bytes)
    ensures Lookup(t, Lower(s)) == Lookup(t, s)
  {
    hide Lower;
    var r, f := Lower(s), FirstBar(s);
    SameBars(s);
    LowerSlice(s, f);
    LowerTwice(s[..f]);
    IndexOfSame(Names(t.commands), r[..f], s[..f]);
    if f < |s| {
      var a, b := s[f + 1..], r[f + 1..];
      LowerSlice(s, f + 1);
      LowerTwice(a);
      LowerKeeps(a);
      var i := IndexOf(Names(t.commands), s[..f]);
      if i < |t.commands| {
        IndexOfSame(SubNames(t.commands[i].subs), a, b);
      }
    }
  }

  lemma SameBars(s: bytes)
    ensures FirstBar(Lower(s)) == FirstBar(s) && LastBar(Lower(s)) == LastBar(s)
  {
    var r := Lower(s);
    assert forall k :: 0 <= k < |s| ==> (r[k] == BAR <==> s[k] == BAR);
    LowerKeeps(s);
    var a, b := LastBar(r), LastBar(s);
    if a < |s| && b < |s| {
      assert r[b] == BAR && s[a] == BAR;
    }
    var e, f := FirstBar(r), FirstBar(s);
    assert e == f || e < f || f < e;
  }

  /** The text kept for an accepted rule is the rule in lower case, and reads as the same rule. */
  lemma Reparse(t: Table, op: bytes)
    requires Parse(t, op).Rule?
    ensures var p := Parse(t, op); Text(p.allow, p.name) == Lower(op) && Parse(t, Lower(op)) == LowerArg(p)
  {
    hide ParseAllow, ParseDeny, ParseCategory, LowerArg;
    var rest, r := op[1..], Lower(op);
    LowerTwice(op);
    assert r[1..] == Lower(rest) && r == [op[0]] + Lower(rest);
    assert r[0] == op[0] && (|op| > 1 ==> (r[1] == AT_SIGN <==> op[1] == AT_SIGN));
    if |op| > 1 && op[1] == AT_SIGN {
      ReparseCategory(t, op[0] == PLUS, rest);
    } else {
      ReparseCommand(t, op[0] == PLUS, rest);
    }
  }

  lemma ReparseCategory(t: Table, allow: bool, rest: bytes)
    requires |rest| > 0
    ensures var p := ParseCategory(t, allow, rest);
            p.Rule? ==> p.allow == allow && p.name == Lower(rest) && ParseCategory(t, allow, Lower(rest)) == LowerArg(p)
  {
    LowerTwice(rest);
    assert Lower(rest)[1..] == Lower(rest[1..]);
    LowerTwice(rest[1..]);
    IndexOfSame(t.categories, Lower(rest)[1..], rest[1..]);
  }

  lemma ReparseCommand(t: Table, allow: bool, rest: bytes)
    ensures var p := if allow then ParseAllow(t, rest) else ParseDeny(t, rest);
            var q := if allow then ParseAllow(t, Lower(rest)) else ParseDeny(t, Lower(rest));
            p.Rule? ==> p.allow == allow && p.name == Lower(rest) && q == LowerArg(p)
  {
    hide Lookup, Lower, FirstBar, FullName;
    LowerTwice(rest);
    SameBars(rest);
    LookupLower(t, rest);
    if !Lookup(t, rest).NoTarget? {
      LookupName(t, rest);
    }
    var l := LastBar(rest);
    if l < |rest| {
      LowerSlice(rest, l);
      LookupLower(t, rest[..l]);
      LowerSlice(rest, l + 1);
    }
  }

  // ------------------------------------------------------------------------------
  // What a rule does
  // ------------------------------------------------------------------------------

  /** The command permissions of a selector; `args[id]` are the allowed first arguments. */
  datatype Selector = Selector(bits: seq<bool>, args: map<nat, seq<bytes>>, rules: seq<bytes>, all: bool)

  predicate OwnId(c: Command, id: nat) {
    c.id == id || exists j :: 0 <= j < |c.subs| && c.subs[j].id == id
  }

  /** The target's command bits include `id`. */
  predicate Touches(t: Table, g: Target, id: nat) {
    match g
    case NoTarget => false
    case Whole(i) => i < |t.commands| && OwnId(t.commands[i], id)
    case Part(i, j) => i < |t.commands| && j < |t.commands[i].subs| && t.commands[i].subs[j].id == id
    case FirstArg(i, _) => false
    case Category(k) =>
      exists i :: 0 <= i < |t.commands| && CategoryTouches(t.commands[i], k, id)
  }

  predicate CategoryTouches(c: Command, k: nat, id: nat) {
    || (k in c.categories && OwnId(c, id))
    || exists j :: 0 <= j < |c.subs| && k in c.subs[j].categories && c.subs[j].id == id
  }

  /** The target's first arguments of command `id` are forgotten. */
  predicate Clears(t: Table, g: Target, id: nat) {
    match g
    case NoTarget => false
    case Whole(i) => i < |t.commands| && t.commands[i].id == id
    case Part(i, j) => i < |t.commands| && j < |t.commands[i].subs| && t.commands[i].subs[j].id == id
    case FirstArg(i, _) => false
    case Category(k) =>
      exists i :: 0 <= i < |t.commands| && CategoryClears(t.commands[i], k, id)
  }

  predicate CategoryClears(c: Command, k: nat, id: nat) {
    || (k in c.categories && c.id == id)
    || exists j :: 0 <= j < |c.subs| && k in c.subs[j].categories && c.subs[j].id == id
  }

  predicate HasArg(list: seq<bytes>, arg: bytes) {
    exists k :: 0 <= k < |list| && Lower(list[k]) == Lower(arg)
  }

  function ArgsOf(args: map<nat, seq<bytes>>, id: nat): seq<bytes> {
    if id in args then args[id] else []
  }

  /** `ACLAddAllowedFirstArg`. */
  function AddArg(args: map<nat, seq<bytes>>, id: nat, arg: bytes): map<nat, seq<bytes>> {
    if HasArg(ArgsOf(args, id), arg) then args else args[id := ArgsOf(args, id) + [arg]]
  }

  ghost function Touched(t: Table, g: Target, allow: bool, bits: seq<bool>): (r: seq<bool>)
    ensures |r| == |bits| && forall id :: 0 <= id < |bits| ==> r[id] == if Touches(t, g, id) then allow else bits[id]
  {
    seq(|bits|, id requires 0 <= id < |bits| => if Touches(t, g, id) then allow else bits[id])
  }

  ghost function Permit(t: Table, s: Selector, allow: bool, g: Target): Selector {
    if g.FirstArg? && g.i < |t.commands| then s.(args := AddArg(s.args, t.commands[g.i].id, g.arg))
    else
      s.(bits := Touched(t, g, allow, s.bits),
         args := map id | id in s.args && !Clears(t, g, id) :: s.args[id],
         all := s.all && (allow || !exists id :: 0 <= id < BITS && Touches(t, g, id)))
  }

  /** `ACLUpdateCommandRules`. */
  function UpdateRules(rules: seq<bytes>, allow: bool, name: bytes): seq<bytes> {
    Without(rules, name) + [Text(allow, name)]
  }

  function Uniform(value: bool): (s: Selector)
    ensures |s.bits| == BITS && forall id :: 0 <= id < BITS ==> s.bits[id] == value
  {
    Selector(seq(BITS, _ => value), map[], [], value)
  }

  /** The effect of one rule on the selector; a refused one has none. */
  ghost function Set(t: Table, s: Selector, op: bytes): Selector {
    Perform(t, s, Parse(t, op))
  }

  ghost function Perform(t: Table, s: Selector, p: Parsed): Selector {
    match p
    case AllCommands => Uniform(true)
    case NoCommands => Uniform(false)
    case Rule(allow, name, g) => Permit(t, s, allow, g).(rules := UpdateRules(s.rules, allow, name))
    case Refused(_) => s
  }

  // ------------------------------------------------------------------------------
  // The last rule about an element decides
  // ------------------------------------------------------------------------------

  /** What a rule can change: one command bit, or whether a command has an allowed first argument. */
  datatype Element = Bit(id: nat) | Arg(id: nat, arg: bytes)

  datatype Effect = Nothing | Becomes(value: bool)

  /** First arguments only exist for whole commands. */
  predicate Tracked(t: Table, e: Element) {
    match e
    case Bit(id) => id < BITS
    case Arg(id, arg) => Lower(arg) == arg && exists i :: 0 <= i < |t.commands| && t.commands[i].id == id
  }

  predicate In(s: Selector, e: Element)
    requires |s.bits| == BITS && (e.Bit? ==> e.id < BITS)
  {
    match e
    case Bit(id) => s.bits[id]
    case Arg(id, arg) => HasArg(ArgsOf(s.args, id), arg)
  }

  function EffectOf(t: Table, allow: bool, g: Target, e: Element): Effect {
    match e
    case Bit(id) => if Touches(t, g, id) then Becomes(allow) else Nothing
    case Arg(id, arg) =>
      if g.FirstArg? && g.i < |t.commands| && t.commands[g.i].id == id && Lower(g.arg) == arg then Becomes(true)
      else if Clears(t, g, id) then Becomes(false)
      else Nothing
  }

  function RuleEffect(t: Table, rule: bytes, e: Element): Effect {
    var p := Parse(t, rule);
    if p.Rule? then EffectOf(t, p.allow, p.target, e) else Nothing
  }

  /** The value of an element after some rules: set by the last one with an effect on it. */
  function Value(t: Table, rules: seq<bytes>, init: bool, e: Element): bool {
    if |rules| == 0 then init && e.Bit?
    else
      var f := RuleEffect(t, rules[|rules| - 1], e);
      if f.Becomes? then f.value else Value(t, rules[..|rules| - 1], init, e)
  }

  lemma HasArgMore(list: seq<bytes>, arg: bytes, x: bytes)
    ensures HasArg(list + [arg], x) <==> HasArg(list, x) || Lower(arg) == Lower(x)
  {
    var more := list + [arg];
    if HasArg(list, x) {
      var k :| 0 <= k < |list| && Lower(list[k]) == Lower(x);
      assert more[k] == list[k];
    }
    if Lower(arg) == Lower(x) {
      assert more[|list|] == arg;
    }
  }

  lemma HasArgSame(list: seq<bytes>, x: bytes, y: bytes)
    requires Lower(x) == Lower(y)
    ensures HasArg(list, x) == HasArg(list, y)
  {}

  /** A rule does to each element what its effect says. */
  lemma PermitEffect(t: Table, s: Selector, allow: bool, g: Target, e: Element)
    requires |s.bits| == BITS && Tracked(t, e)
    ensures |Permit(t, s, allow, g).bits| == BITS
    ensures var f := EffectOf(t, allow, g, e); In(Permit(t, s, allow, g), e) == if f.Becomes? then f.value else In(s, e)
  {
    if e.Arg? && g.FirstArg? && g.i < |t.commands| && t.commands[g.i].id == e.id {
      var list := ArgsOf(s.args, e.id);
      LowerTwice(g.arg);
      if HasArg(list, g.arg) {
        HasArgSame(list, g.arg, Lower(g.arg));
      } else {
        HasArgMore(list, g.arg, e.arg);
      }
    }
  }

  // ------------------------------------------------------------------------------
  // Dropping the rules about a name before adding one is sound
  // ------------------------------------------------------------------------------

  /** The target of an accepted rule is determined by its name. */
  function TargetOf(t: Table, rest: bytes): Target {
    if |rest| > 0 && rest[0] == AT_SIGN then Category(IndexOf(t.categories, rest[1..]))
    else
      var g, l := Lookup(t, rest), LastBar(rest);
      if !g.NoTarget? || l == |rest| then g
      else
        var h := Lookup(t, rest[..l]);
        if h.Whole? then FirstArg(h.i, rest[l + 1..]) else NoTarget
  }

  lemma BarPlaces(rest: bytes, l: nat)
    requires l < |rest| && rest[l] == BAR && BAR !in rest[..l]
    ensures FirstBar(rest) == l
    ensures BAR !in rest[l + 1..] ==> LastBar(rest) == l
  {
    var f, b := FirstBar(rest), LastBar(rest);
    assert b > l && b < |rest| ==> rest[l + 1..][b - l - 1] == BAR;
  }

  lemma LastBarHead(rest: bytes)
    requires LastBar(rest) < |rest| && BAR !in rest[..LastBar(rest)]
    ensures FirstBar(rest) == LastBar(rest)
  {
    BarPlaces(rest, LastBar(rest));
  }

  lemma ParseTarget(t: Table, op: bytes)
    requires Parse(t, op).Rule?
    ensures |op| > 1 && Parse(t, op).target == TargetOf(t, op[1..])
  {
    hide Lower, ParseAllow, ParseDeny, TargetOf;
    var rest := op[1..];
    if |op| > 1 && op[1] == AT_SIGN {
      CategoryTarget(t, op[0] == PLUS, rest);
    } else {
      CommandTarget(t, op[0] == PLUS, rest);
    }
  }

  lemma CategoryTarget(t: Table, allow: bool, rest: bytes)
    requires |rest| > 0 && rest[0] == AT_SIGN && ParseCategory(t, allow, rest).Rule?
    ensures ParseCategory(t, allow, rest).target == TargetOf(t, rest)
  {}

  lemma CommandTarget(t: Table, allow: bool, rest: bytes)
    requires |rest| > 0 ==> rest[0] != AT_SIGN
    requires (if allow then ParseAllow(t, rest) else ParseDeny(t, rest)).Rule?
    ensures |rest| > 0 && (if allow then ParseAllow(t, rest) else ParseDeny(t, rest)).target == TargetOf(t, rest)
  {
    var l := LastBar(rest);
    if l < |rest| && Lookup(t, rest[..l]).Whole? {
      LookupName(t, rest[..l]);
      LastBarHead(rest);
      LookupWhole(t, rest, l);
    }
    LookupEmpty(t);
    hide Lookup, Lower, FirstBar, FullName;
  }

  lemma LookupEmpty(t: Table)
    ensures Lookup(t, []).NoTarget?
  {}

  /** If the part before the only bar is a command without subcommands, nothing is found. */
  lemma LookupWhole(t: Table, rest: bytes, l: nat)
    requires l < |rest| && FirstBar(rest) == l && Lookup(t, rest[..l]).Whole? && BAR !in rest[..l]
    ensures |t.commands[Lookup(t, rest[..l]).i].subs| == 0 ==> Lookup(t, rest).NoTarget?
  {
    NoBar(rest[..l]);
  }

  lemma NoBar(n: bytes)
    requires BAR !in n
    ensures FirstBar(n) == |n| && n[..|n|] == n
  {
    assert FirstBar(n) < |n| || FirstBar(n) == |n|;
  }

  lemma LookupParts(t: Table, n: bytes, tail: bytes)
    requires |n| > 0 && BAR !in n && BAR !in tail
    ensures !Lookup(t, n).Part?
    ensures var g := Lookup(t, n + [BAR] + tail);
            g.NoTarget? || (g.Part? && Lookup(t, n) == Whole(g.i))
  {
    var rest := n + [BAR] + tail;
    assert rest[..|n|] == n && rest[|n| + 1..] == tail && rest[|n|] == BAR;
    BarPlaces(rest, |n|);
    NoBar(n);
  }

  /** An accepted rule about a part of `n`. */
  lemma PartTarget(t: Table, n: bytes, tail: bytes)
    requires |n| > 0
    requires var rest := n + [BAR] + tail; ParseAllow(t, rest).Rule? || ParseDeny(t, rest).Rule?
    ensures Lookup(t, n).Whole? && BAR !in n
    ensures var g := TargetOf(t, n + [BAR] + tail);
            n[0] != AT_SIGN ==> (g.Part? || g.FirstArg?) && g.i == Lookup(t, n).i
  {
    var rest, l := n + [BAR] + tail, |n|;
    OneBar(t, n, tail);
    LookupParts(t, n, tail);
    assert rest[..l] == n && rest[l + 1..] == tail && rest[l] == BAR;
    BarPlaces(rest, l);
    hide Lookup, Lower;
  }

  /** ... has no other bar. */
  lemma OneBar(t: Table, n: bytes, tail: bytes)
    requires |n| > 0
    requires var rest := n + [BAR] + tail; ParseAllow(t, rest).Rule? || ParseDeny(t, rest).Rule?
    ensures BAR !in n && BAR !in tail
  {
    var rest := n + [BAR] + tail;
    var f, l := FirstBar(rest), LastBar(rest);
    assert rest[|n|] == BAR;
    if ParseDeny(t, rest).Rule? {
      OneBarLookup(rest, n, tail);
    } else {
      LookupName(t, rest[..l]);
      OneBarAllow(rest, n, tail);
    }
  }

  lemma OneBarLookup(rest: bytes, n: bytes, tail: bytes)
    requires rest == n + [BAR] + tail && FirstBar(rest) < |rest| && BAR !in rest[FirstBar(rest) + 1..]
    ensures BAR !in n && BAR !in tail
  {
    var f := FirstBar(rest);
    assert rest[|n|] == BAR;
    assert f == |n|;
    assert rest[f + 1..] == tail;
    assert forall k :: 0 <= k < |n| ==> n[k] == rest[k];
  }

  lemma OneBarAllow(rest: bytes, n: bytes, tail: bytes)
    requires rest == n + [BAR] + tail && LastBar(rest) < |rest| && BAR !in rest[..LastBar(rest)]
    ensures BAR !in n && BAR !in tail
  {
    var l := LastBar(rest);
    assert rest[|n|] == BAR;
    assert l == |n|;
    assert rest[..l] == n;
    assert forall k :: 0 <= k < |tail| ==> tail[k] == rest[|n| + 1 + k];
  }

  /** A rule as it stands in the text. */
  predicate Canonical(t: Table, rule: bytes) {
    Parse(t, rule).Rule? && Lower(rule) == rule
  }

  lemma SameEffect(t: Table, g: Target, e: Element, a: bool, b: bool)
    ensures EffectOf(t, a, g, e).Nothing? <==> EffectOf(t, b, g, e).Nothing?
    ensures g.FirstArg? ==> EffectOf(t, a, FirstArg(g.i, Lower(g.arg)), e) == EffectOf(t, a, g, e)
  {
    if g.FirstArg? {
      LowerTwice(g.arg);
    }
  }

  lemma PartCovered(t: Table, g: Target, i: nat, e: Element, a: bool, b: bool)
    requires Valid(t) && Tracked(t, e) && (g.Part? || g.FirstArg?) && g.i == i < |t.commands|
    requires EffectOf(t, a, Whole(i), e).Nothing?
    ensures EffectOf(t, b, g, e).Nothing?
  {}

  lemma CategoryNoBar(t: Table, allow: bool, rest: bytes)
    requires Valid(t) && |rest| > 0 && ParseCategory(t, allow, rest).Rule?
    ensures BAR !in rest[1..]
  {
    var k := IndexOf(t.categories, rest[1..]);
    LowerKeeps(rest[1..]);
    LowerKeeps(t.categories[k]);
    assert PlainName(t.categories[k]);
  }

  /** A rule about a name has no effect where the new rule for that name has none. */
  lemma Covered(t: Table, rule: bytes, op: bytes, e: Element)
    requires Valid(t) && Canonical(t, rule) && Parse(t, op).Rule? && About(rule, Parse(t, op).name) && Tracked(t, e)
    requires var p := Parse(t, op); EffectOf(t, p.allow, p.target, e).Nothing?
    ensures RuleEffect(t, rule, e).Nothing?
  {
    hide Parse, EffectOf, TargetOf, Valid, Lookup, Tracked, Lower;
    var p, q := Parse(t, op), Parse(t, rule);
    var n, g := p.name, p.target;
    Reparse(t, op);
    ParseTarget(t, Lower(op));
    ParseTarget(t, rule);
    assert Lower(op)[1..] == n;
    SameEffect(t, g, e, p.allow, q.allow);
    SameEffect(t, g, e, q.allow, q.allow);
    var g' := LowerArg(p).target;
    assert g' == TargetOf(t, n) && EffectOf(t, q.allow, g', e).Nothing?;
    if |rule| == |n| + 1 {
      assert rule[1..] == n;
    } else {
      var tail := rule[|n| + 2..];
      assert rule[1..] == n + [BAR] + tail;
      LongerCovered(t, rule, n, tail);
      PartCovered(t, q.target, q.target.i, e, q.allow, q.allow);
    }
  }

  lemma LongerCovered(t: Table, rule: bytes, n: bytes, tail: bytes)
    requires Valid(t) && Parse(t, rule).Rule? && |n| > 0 && |rule| > 1 && rule[1..] == n + [BAR] + tail
    ensures var g := Parse(t, rule).target;
            (g.Part? || g.FirstArg?) && g.i < |t.commands| && TargetOf(t, n) == Whole(g.i)
  {
    ParseTarget(t, rule);
    var rest := rule[1..];
    assert rest[0] == n[0] && rest[|n|] == BAR;
    if rest[0] == AT_SIGN {
      CategoryNoBar(t, rule[0] == PLUS, rest);
      assert false;
    } else {
      PartTarget(t, n, tail);
    }
  }

  predicate AllCanonical(t: Table, rules: seq<bytes>) {
    forall i :: 0 <= i < |rules| ==> Canonical(t, rules[i])
  }

  lemma ValueLast(t: Table, rules: seq<bytes>, r: bytes, init: bool, e: Element)
    ensures Value(t, rules + [r], init, e) ==
            var f := RuleEffect(t, r, e); if f.Becomes? then f.value else Value(t, rules, init, e)
  {
    assert (rules + [r])[..|rules + [r]| - 1] == rules;
  }

  lemma {:induction false} ValueWithout(t: Table, rules: seq<bytes>, op: bytes, init: bool, e: Element)
    requires Valid(t) && AllCanonical(t, rules) && Parse(t, op).Rule? && Tracked(t, e)
    requires var p := Parse(t, op); EffectOf(t, p.allow, p.target, e).Nothing?
    ensures Value(t, Without(rules, Parse(t, op).name), init, e) == Value(t, rules, init, e)
  {
    hide Parse, EffectOf, RuleEffect, Valid, Tracked, About;
    if |rules| > 0 {
      var k, n := |rules| - 1, Parse(t, op).name;
      var front, last := rules[..k], rules[k];
      assert rules == front + [last];
      ValueWithout(t, front, op, init, e);
      WithoutAppend(front, [last], n);
      WithoutOne(last, n);
      ValueLast(t, front, last, init, e);
      assert Canonical(t, rules[k]);
      if About(last, n) {
        assert Without(front, n) + [] == Without(front, n);
        Covered(t, last, op, e);
      } else {
        ValueLast(t, Without(front, n), last, init, e);
      }
    }
  }

  lemma WithoutOne(r: bytes, name: bytes)
    ensures Without([r], name) == if About(r, name) then [] else [r]
  {
    assert [r][1..] == [];
  }

  /** Adding a rule to the text does to each element what the rule does. */
  lemma UpdateValue(t: Table, rules: seq<bytes>, op: bytes, init: bool, e: Element)
    requires Valid(t) && AllCanonical(t, rules) && Parse(t, op).Rule? && Tracked(t, e)
    ensures var p := Parse(t, op); var f := EffectOf(t, p.allow, p.target, e);
            Value(t, UpdateRules(rules, p.allow, p.name), init, e) ==
            if f.Becomes? then f.value else Value(t, rules, init, e)
  {
    hide Parse, EffectOf, Valid, Tracked, Without, Text, Lower, Value;
    var p := Parse(t, op);
    Reparse(t, op);
    SameEffect(t, p.target, e, p.allow, p.allow);
    ValueLast(t, Without(rules, p.name), Text(p.allow, p.name), init, e);
    if EffectOf(t, p.allow, p.target, e).Nothing? {
      ValueWithout(t, rules, op, init, e);
    }
  }

  // ------------------------------------------------------------------------------
  // The text always describes the bitmap
  // ------------------------------------------------------------------------------

  function NameOf(rule: bytes): bytes {
    if |rule| == 0 then [] else rule[1..]
  }

  /** No rule is about the name of a later one. */
  predicate NoStale(rules: seq<bytes>) {
    |rules| == 0 || (NoStale(rules[1..]) && forall i :: 1 <= i < |rules| ==> !About(rules[0], NameOf(rules[i])))
  }

  lemma {:induction false} NoStaleWithout(rules: seq<bytes>, name: bytes)
    requires NoStale(rules)
    ensures NoStale(Without(rules, name))
  {
    hide About;
    if |rules| > 0 {
      NoStaleWithout(rules[1..], name);
      var rest := Without(rules[1..], name);
      var w := Without(rules, name);
      if !About(rules[0], name) {
        assert w == [rules[0]] + rest && w[1..] == rest;
        forall i | 1 <= i < |w| ensures !About(w[0], NameOf(w[i])) {
          WithoutMember(rules[1..], name, w[i]);
          assert w[i] in rest;
          var k :| 0 <= k < |rules[1..]| && rules[1..][k] == w[i];
          assert rules[k + 1] == w[i];
        }
      } else {
        assert w == rest;
      }
    }
  }

  lemma {:induction false} NoStaleMore(rules: seq<bytes>, r: bytes)
    ensures NoStale(rules + [r]) <==> NoStale(rules) && forall i :: 0 <= i < |rules| ==> !About(rules[i], NameOf(r))
  {
    hide About;
    if |rules| > 0 {
      var w := rules + [r];
      assert w[1..] == rules[1..] + [r];
      NoStaleMore(rules[1..], r);
      assert w[|rules|] == r;
      assert forall i :: 1 <= i < |rules| ==> w[i] == rules[i] && rules[i] == rules[1..][i - 1];
    }
  }

  lemma {:induction false} WithoutNothing(rules: seq<bytes>, name: bytes)
    requires forall i :: 0 <= i < |rules| ==> !About(rules[i], name)
    ensures Without(rules, name) == rules
  {
    if |rules| > 0 {
      WithoutNothing(rules[1..], name);
    }
  }

  /** What every clean rule keeps: the rules of the text, applied to a uniform bitmap chosen by
      the reserved bit, give the bitmap and the first arguments. */
  ghost predicate Good(t: Table, s: Selector) {
    && |s.bits| == BITS && AllCanonical(t, s.rules) && NoStale(s.rules)
    && (forall i :: 0 <= i < |s.rules| ==> Clean(s.rules[i]))
    && (forall e :: Tracked(t, e) ==> In(s, e) == Value(t, s.rules, s.bits[RESERVED], e))
    && (s.all ==> forall id :: 0 <= id < BITS ==> s.bits[id])
  }

  lemma UniformGood(t: Table, value: bool)
    ensures Good(t, Uniform(value))
  {}

  lemma ReservedKept(t: Table, g: Target)
    requires Valid(t)
    ensures !Touches(t, g, RESERVED)
  {}

  lemma UpdateClean(t: Table, rules: seq<bytes>, op: bytes)
    requires Parse(t, op).Rule? && Clean(op) && AllCanonical(t, rules) && NoStale(rules)
    requires forall i :: 0 <= i < |rules| ==> Clean(rules[i])
    ensures var p := Parse(t, op); var r := UpdateRules(rules, p.allow, p.name);
            AllCanonical(t, r) && NoStale(r) && forall i :: 0 <= i < |r| ==> Clean(r[i])
  {
    var p := Parse(t, op);
    var w, x := Without(rules, p.name), Text(p.allow, p.name);
    Reparse(t, op);
    LowerTwice(op);
    LowerKeeps(op);
    NoStaleWithout(rules, p.name);
    hide Parse, About, Lower, Without, Clean;
    assert NameOf(x) == p.name;
    forall i | 0 <= i < |w| ensures Canonical(t, w[i]) && Clean(w[i]) && !About(w[i], NameOf(x)) {
      WithoutMember(rules, p.name, w[i]);
      assert w[i] in w;
      var k :| 0 <= k < |rules| && rules[k] == w[i];
    }
    NoStaleMore(w, x);
    assert Canonical(t, x);
    var r := w + [x];
    assert forall i :: 0 <= i < |r| ==> r[i] == if i < |w| then w[i] else x;
  }

  lemma PermitAll(t: Table, s: Selector, allow: bool, g: Target)
    requires |s.bits| == BITS && (s.all ==> forall id :: 0 <= id < BITS ==> s.bits[id])
    ensures var u := Permit(t, s, allow, g); u.all ==> forall id :: 0 <= id < BITS ==> u.bits[id]
  {}

  /** Every clean rule, accepted or refused, keeps text and bitmap together. */
  lemma SetGood(t: Table, s: Selector, op: bytes)
    requires Valid(t) && Good(t, s) && Clean(op)
    ensures Good(t, Set(t, s, op))
  {
    var p, u := Parse(t, op), Set(t, s, op);
    hide Parse, Valid;
    if p.Rule? {
      UpdateClean(t, s.rules, op);
      PermitAll(t, s, p.allow, p.target);
      ReservedKept(t, p.target);
      hide Tracked, Value, EffectOf, NoStale, Clean;
      var v := Permit(t, s, p.allow, p.target);
      forall e | Tracked(t, e) ensures In(u, e) == Value(t, u.rules, u.bits[RESERVED], e) {
        TrackedBit(t, e);
        PermitEffect(t, s, p.allow, p.target, e);
        UpdateValue(t, s.rules, op, s.bits[RESERVED], e);
        assert In(u, e) == In(v, e);
      }
    } else {
      UniformGood(t, true);
      UniformGood(t, false);
    }
  }

  lemma TrackedBit(t: Table, e: Element)
    requires Tracked(t, e)
    ensures e.Bit? ==> e.id < BITS
  {}

  /** All rules of a list in turn. */
  ghost function SetAll(t: Table, s: Selector, ops: seq<bytes>): Selector {
    if |ops| == 0 then s else Set(t, SetAll(t, s, ops[..|ops| - 1]), ops[|ops| - 1])
  }

  /** A new selector has no permissions; every list of clean rules leads to a good one. */
  lemma {:induction false} SetAllGood(t: Table, ops: seq<bytes>)
    requires Valid(t) && forall i :: 0 <= i < |ops| ==> Clean(ops[i])
    ensures Good(t, SetAll(t, Uniform(false), ops))
  {
    hide Good, Valid, Clean, Set;
    if |ops| == 0 {
      UniformGood(t, false);
    } else {
      SetAllGood(t, ops[..|ops| - 1]);
      SetGood(t, SetAll(t, Uniform(false), ops[..|ops| - 1]), ops[|ops| - 1]);
    }
  }

  // ------------------------------------------------------------------------------
  // Describing
  // ------------------------------------------------------------------------------

  datatype Replayed = Rebuilt(s: Selector) | Failed

  /** The rules of a text applied one by one, each of which must be accepted. */
  ghost function Replay(t: Table, start: Selector, rules: seq<bytes>): Replayed {
    if |rules| == 0 then Rebuilt(start)
    else
      var r := Replay(t, start, rules[..|rules| - 1]);
      if r.Failed? || Parse(t, rules[|rules| - 1]).Refused? then Failed else Rebuilt(Set(t, r.s, rules[|rules| - 1]))
  }

  /** The replay that `ACLDescribeSelectorCommandRules` makes to check itself. */
  ghost function SelfCheck(t: Table, s: Selector): Replayed
    requires |s.bits| == BITS
  {
    var argv := SplitFrom(JoinRules(s.rules), 0, []);
    if argv.Unbalanced? then Failed else Replay(t, Uniform(s.bits[RESERVED]), argv.argv)
  }

  ghost predicate Same(t: Table, s: Selector, u: Selector)
    requires |s.bits| == BITS
  {
    s.bits == u.bits && forall e :: Tracked(t, e) ==> In(s, e) == In(u, e)
  }

  lemma SetRule(t: Table, u: Selector, rule: bytes)
    requires Canonical(t, rule) && |u.bits| == BITS
    requires forall i :: 0 <= i < |u.rules| ==> !About(u.rules[i], NameOf(rule))
    ensures var v := Set(t, u, rule);
            |v.bits| == BITS && v.rules == u.rules + [rule] &&
            forall e :: Tracked(t, e) ==>
                In(v, e) == var f := RuleEffect(t, rule, e); if f.Becomes? then f.value else In(u, e)
  {
    var p, v := Parse(t, rule), Set(t, u, rule);
    Reparse(t, rule);
    assert NameOf(rule) == p.name;
    WithoutNothing(u.rules, p.name);
    hide Parse, About, Lower, EffectOf, Touched, Tracked;
    var w := Permit(t, u, p.allow, p.target);
    forall e | Tracked(t, e)
      ensures In(v, e) == var f := RuleEffect(t, rule, e); if f.Becomes? then f.value else In(u, e)
    {
      TrackedBit(t, e);
      PermitEffect(t, u, p.allow, p.target, e);
      assert In(v, e) == In(w, e);
    }
  }

  lemma {:induction false} ReplayRules(t: Table, rules: seq<bytes>, init: bool)
    requires AllCanonical(t, rules) && NoStale(rules)
    ensures var r := Replay(t, Uniform(init), rules); r.Rebuilt? && r.s.rules == rules && Holding(t, r.s, rules, init)
  {
    hide Parse, About, Set, Uniform, Holding, NoStale, Replay, NameOf;
    if |rules| == 0 {
      ReplayNothing(t, Uniform(init));
      UniformHolding(t, init);
    } else {
      var n := |rules| - 1;
      var front, last := rules[..n], rules[n];
      assert rules == front + [last] && rules[..n + 1] == rules;
      NoStaleMore(front, last);
      ReplayRules(t, front, init);
      var r := Replay(t, Uniform(init), front);
      assert Canonical(t, last);
      ReplayStep(t, Uniform(init), rules, n, r.s);
      HoldingNext(t, r.s, front, last, init);
    }
  }

  lemma ReplayNothing(t: Table, init: Selector)
    ensures Replay(t, init, []) == Rebuilt(init)
  {}

  lemma UniformHolding(t: Table, init: bool)
    ensures Uniform(init).rules == [] && Holding(t, Uniform(init), [], init)
  {}

  /** The selector is what some rules make of a uniform bitmap. */
  ghost predicate Holding(t: Table, s: Selector, rules: seq<bytes>, init: bool) {
    |s.bits| == BITS && forall e :: Tracked(t, e) ==> In(s, e) == Value(t, rules, init, e)
  }

  lemma HoldingNext(t: Table, s: Selector, rules: seq<bytes>, rule: bytes, init: bool)
    requires Holding(t, s, rules, init) && Canonical(t, rule)
    requires forall i :: 0 <= i < |s.rules| ==> !About(s.rules[i], NameOf(rule))
    ensures Holding(t, Set(t, s, rule), rules + [rule], init) && Set(t, s, rule).rules == s.rules + [rule]
  {
    hide Parse, About, Set, RuleEffect, Canonical, Value, HasArg;
    SetRule(t, s, rule);
    forall e | Tracked(t, e) ensures In(Set(t, s, rule), e) == Value(t, rules + [rule], init, e) {
      ValueLast(t, rules, rule, init, e);
    }
  }

  lemma SameBits(t: Table, s: Selector, u: Selector)
    requires |s.bits| == BITS && |u.bits| == BITS && forall e :: Tracked(t, e) ==> In(s, e) == In(u, e)
    ensures s.bits == u.bits
  {
    forall id | 0 <= id < BITS ensures s.bits[id] == u.bits[id] {
      assert Tracked(t, Bit(id)) && In(s, Bit(id)) == In(u, Bit(id));
    }
  }

  /** The self-check of the describer never fails: it accepts every rule of the text, and ends
      with the bitmap, the first arguments and the text that were described. */
  lemma DescribeSafe(t: Table, s: Selector)
    requires Good(t, s)
    ensures var r := SelfCheck(t, s); r.Rebuilt? && Same(t, s, r.s) && r.s.rules == s.rules
  {
    hide Canonical, NoStale, Tracked, Value, Clean, In;
    SplitRules(s.rules);
    ReplayRules(t, s.rules, s.bits[RESERVED]);
    assert Holding(t, SelfCheck(t, s).s, s.rules, s.bits[RESERVED]);
    SameBits(t, s, SelfCheck(t, s).s);
  }

  // ------------------------------------------------------------------------------
  // Blanks and quotes in a first argument
  // ------------------------------------------------------------------------------

  lemma {:induction false} ReplayNever(t: Table, start: Selector, rules: seq<bytes>, e: Element)
    requires |start.bits| == BITS && Tracked(t, e) && e.Arg? && !In(start, e)
    requires forall i :: 0 <= i < |rules| ==> RuleEffect(t, rules[i], e) != Becomes(true)
    ensures var r := Replay(t, start, rules); r.Rebuilt? ==> |r.s.bits| == BITS && !In(r.s, e)
  {
    if |rules| > 0 {
      var front, last := rules[..|rules| - 1], rules[|rules| - 1];
      ReplayNever(t, start, front, e);
      var r, p := Replay(t, start, front), Parse(t, last);
      hide Parse, EffectOf, Touched, Clears;
      if r.Rebuilt? && p.Rule? {
        PermitEffect(t, r.s, p.allow, p.target, e);
        var v := Permit(t, r.s, p.allow, p.target);
        assert In(Set(t, r.s, last), e) == In(v, e);
      }
    }
  }

  lemma PlainClean(op: bytes, name: bytes)
    requires |op| > 0 && (op[0] == PLUS || op[0] == MINUS) && Lower(op[1..]) == Lower(name)
    requires 0 !in name && forall k :: 0 <= k < |name| ==> PlainChar(name[k])
    ensures Clean(op)
  {
    var rest := op[1..];
    forall k | 0 <= k < |op| ensures PlainChar(op[k]) && op[k] != 0 {
      if k > 0 {
        assert rest[k - 1] == op[k];
        assert Lower(rest)[k - 1] == Lower(name)[k - 1];
        assert name[k - 1] in name && PlainChar(name[k - 1]);
      }
    }
  }

  lemma PlainTarget(t: Table, rest: bytes) returns (name: bytes)
    requires Valid(t) && |rest| > 0
    requires var g := TargetOf(t, rest); (g.Category? && g.k < |t.categories|) || g.Whole? || g.Part?
    ensures Lower(rest) == Lower(name) && 0 !in name && forall k :: 0 <= k < |name| ==> PlainChar(name[k])
  {
    var g := TargetOf(t, rest);
    if g.Category? {
      var c := t.categories[g.k];
      assert PlainName(c);
      assert rest == [AT_SIGN] + rest[1..];
      LowerAppend([AT_SIGN], rest[1..]);
      LowerAppend([AT_SIGN], c);
      name := [AT_SIGN] + c;
    } else {
      assert g == Lookup(t, rest);
      LookupName(t, rest);
      hide Lookup, Lower;
      name := FullName(t, g);
      var c := t.commands[g.i];
      assert PlainName(c.name);
      assert g.Part? ==> PlainName(c.subs[g.j].name);
    }
  }

  /** Only a first argument can bring a blank or a quote into an accepted rule. */
  lemma UncleanIsArg(t: Table, op: bytes)
    requires Valid(t) && Parse(t, op).Rule? && !Clean(op)
    ensures Parse(t, op).target.FirstArg? && Parse(t, op).target.i < |t.commands|
  {
    ParseTarget(t, op);
    ParseRange(t, op);
    hide Parse, TargetOf, Valid;
    var g, rest := Parse(t, op).target, op[1..];
    if !g.FirstArg? {
      var name := PlainTarget(t, rest);
      PlainClean(op, name);
    }
  }

  lemma ParseRange(t: Table, op: bytes)
    requires Parse(t, op).Rule?
    ensures |op| > 0 && (op[0] == PLUS || op[0] == MINUS)
    ensures match Parse(t, op).target
            case NoTarget => false
            case Whole(i) => i < |t.commands|
            case Part(i, j) => i < |t.commands| && j < |t.commands[i].subs|
            case FirstArg(i, _) => i < |t.commands| && op[0] == PLUS
            case Category(k) => k < |t.categories|
  {
    hide Lookup, Lower;
  }

  lemma ArgOfTarget(t: Table, rest: bytes)
    requires TargetOf(t, rest).FirstArg?
    ensures var g := TargetOf(t, rest);
            g.i < |t.commands| && Lower(rest) == Lower(t.commands[g.i].name) + [BAR] + Lower(g.arg)
  {
    hide Lookup, Lower, IndexOf;
    var g, l := TargetOf(t, rest), LastBar(rest);
    var head := rest[..l];
    assert Lookup(t, head) == Whole(g.i) && l < |rest| && rest[l] == BAR && g.arg == rest[l + 1..];
    LookupName(t, head);
    hide TargetOf, LastBar;
    assert rest == head + ([BAR] + g.arg);
    LowerAppend(head, [BAR] + g.arg);
    LowerAppend([BAR], g.arg);
    LowerBar();
  }

  lemma LowerBar()
    ensures Lower([BAR]) == [BAR] && Lower([PLUS]) == [PLUS]
  {}

  /** The text of a rule about a first argument. */
  lemma ArgText(t: Table, op: bytes)
    requires Parse(t, op).Rule? && Parse(t, op).target.FirstArg?
    ensures var g := Parse(t, op).target;
            g.i < |t.commands| && Lower(op) == [PLUS] + (Lower(t.commands[g.i].name) + [BAR] + Lower(g.arg))
  {
    hide Parse, TargetOf, Lower;
    ParseTarget(t, op);
    ParseRange(t, op);
    ArgOfTarget(t, op[1..]);
    assert op == [PLUS] + op[1..];
    LowerAppend([PLUS], op[1..]);
    LowerBar();
  }

  /** Rules that allow the same first argument are equal up to case. */
  lemma SameArg(t: Table, op: bytes, r: bytes, e: Element)
    requires Valid(t) && Parse(t, op).Rule? && Parse(t, op).target.FirstArg?
    requires e.Arg? && RuleEffect(t, op, e) == Becomes(true) && RuleEffect(t, r, e) == Becomes(true)
    ensures |r| == |op| && (Clean(r) <==> Clean(op))
  {
    ArgText(t, op);
    ArgText(t, r);
    LowerKeeps(op);
    LowerKeeps(r);
    hide Parse;
    assert Parse(t, op).target.i == Parse(t, r).target.i;
    assert Lower(op) == Lower(r);
  }

  /** The tokens of a text whose last rule is not clean. */
  lemma UncleanTokens(w: seq<bytes>, x: bytes)
    requires |x| > 0 && (exists k :: 0 <= k < |x| && !PlainChar(x[k])) && forall i :: 0 <= i < |w| ==> Clean(w[i])
    ensures var r := SplitFrom(JoinRules(w + [x]), 0, []);
            r.Args? ==> forall n :: 0 <= n < |r.argv| ==> Clean(r.argv[n]) || |r.argv[n]| < |x|
  {
    hide Clean, SplitFrom;
    var k :| 0 <= k < |x| && !PlainChar(x[k]);
    var line := JoinRules(w + [x]);
    if |w| == 0 {
      assert w + [x] == [x];
      SplitShort(line, 0, [], k);
    } else {
      var p := JoinRules(w);
      JoinAppend(w, [x]);
      JoinOne(x);
      hide JoinRules;
      assert line == p + [SPACE] + x && line[0..|p|] == p;
      SplitClean(line, 0, w, []);
      assert [] + w == w;
      SplitShort(line, |p| + 1, w, |p| + 1 + k);
    }
  }

  lemma NotClean(x: bytes)
    requires |x| > 0 && (x[0] == PLUS || x[0] == MINUS) && 0 !in x && !Clean(x)
    ensures exists k :: 0 <= k < |x| && !PlainChar(x[k])
  {}

  /** An accepted rule keeps text and permissions together if and only if it is clean. */
  lemma DescribeIff(t: Table, s: Selector, op: bytes)
    requires Valid(t) && Good(t, s) && Parse(t, op).Rule? && 0 !in op
    ensures var u := Set(t, s, op);
            |u.bits| == BITS && ((SelfCheck(t, u).Rebuilt? && Same(t, u, SelfCheck(t, u).s)) <==> Clean(op))
  {
    var u := Set(t, s, op);
    PermitSize(t, s, op);
    if Clean(op) {
      SetGood(t, s, op);
      DescribeSafe(t, u);
    } else {
      DescribeFails(t, s, op);
    }
  }

  lemma PermitSize(t: Table, s: Selector, op: bytes)
    requires |s.bits| == BITS
    ensures |Set(t, s, op).bits| == BITS
  {
    hide Parse;
  }

  /** The first argument that an unclean rule adds. */
  lemma AddedArg(t: Table, s: Selector, op: bytes) returns (e: Element)
    requires |s.bits| == BITS && Parse(t, op).Rule? && Parse(t, op).target.FirstArg?
    ensures e.Arg? && Tracked(t, e) && RuleEffect(t, op, e) == Becomes(true)
    ensures |Set(t, s, op).bits| == BITS && In(Set(t, s, op), e)
  {
    ParseRange(t, op);
    hide Parse;
    var p := Parse(t, op);
    var g := p.target;
    e := Arg(t.commands[g.i].id, Lower(g.arg));
    LowerTwice(g.arg);
    PermitSize(t, s, op);
    PermitEffect(t, s, p.allow, g, e);
    assert In(Set(t, s, op), e) == In(Permit(t, s, p.allow, g), e);
  }

  lemma LowerSign(op: bytes)
    requires |op| > 0 && (op[0] == PLUS || op[0] == MINUS)
    ensures Lower(op)[0] == op[0]
  {}

  lemma ReplayStep(t: Table, init: Selector, rules: seq<bytes>, i: nat, s: Selector)
    requires i < |rules| && Replay(t, init, rules[..i]) == Rebuilt(s) && !Parse(t, rules[i]).Refused?
    ensures Replay(t, init, rules[..i + 1]) == Rebuilt(Set(t, s, rules[i]))
  {
    hide Parse, Set;
    assert rules[..i + 1][..i] == rules[..i];
  }

  lemma UncleanRules(t: Table, s: Selector, op: bytes)
    requires Good(t, s) && Parse(t, op).Rule? && 0 !in op && !Clean(op)
    ensures var r := SplitFrom(JoinRules(Set(t, s, op).rules), 0, []);
            r.Args? ==> forall n :: 0 <= n < |r.argv| ==> Clean(r.argv[n]) || |r.argv[n]| < |op|
  {
    hide Parse, Lower, Without, Clean, Permit, Tracked, Value, AllCanonical, NoStale, JoinRules, SplitFrom, In, Text,
        Uniform;
    var p, x := Parse(t, op), Lower(op);
    Reparse(t, op);
    ParseRange(t, op);
    LowerKeeps(op);
    var w := Without(s.rules, p.name);
    LowerSign(op);
    assert Set(t, s, op).rules == w + [x];
    WithoutClean(s.rules, p.name, w);
    NotClean(x);
    UncleanTokens(w, x);
  }

  lemma DescribeFails(t: Table, s: Selector, op: bytes)
    requires Valid(t) && Good(t, s) && Parse(t, op).Rule? && 0 !in op && !Clean(op)
    ensures var u := Set(t, s, op);
            |u.bits| == BITS && !(SelfCheck(t, u).Rebuilt? && Same(t, u, SelfCheck(t, u).s))
  {
    hide Parse, Valid, Clean, In, Tracked, SplitFrom, Replay, Set, RuleEffect;
    var u := Set(t, s, op);
    UncleanIsArg(t, op);
    UncleanRules(t, s, op);
    var e := AddedArg(t, s, op);
    var argv := SplitFrom(JoinRules(u.rules), 0, []);
    if argv.Args? {
      forall n | 0 <= n < |argv.argv| ensures RuleEffect(t, argv.argv[n], e) != Becomes(true) {
        if RuleEffect(t, argv.argv[n], e) == Becomes(true) {
          SameArg(t, op, argv.argv[n], e);
        }
      }
      UniformNoArgs(t, u.bits[RESERVED], e);
      ReplayNever(t, Uniform(u.bits[RESERVED]), argv.argv, e);
    }
  }

  lemma UniformNoArgs(t: Table, value: bool, e: Element)
    requires e.Arg?
    ensures !In(Uniform(value), e)
  {}

  lemma WithoutClean(rules: seq<bytes>, name: bytes, w: seq<bytes>)
    requires w == Without(rules, name) && forall i :: 0 <= i < |rules| ==> Clean(rules[i])
    ensures forall i :: 0 <= i < |w| ==> Clean(w[i])
  {
    forall i | 0 <= i < |w| ensures Clean(w[i]) {
      WithoutMember(rules, name, w[i]);
      assert w[i] in w;
    }
  }

  // ------------------------------------------------------------------------------
  // When the describer panics
  // ------------------------------------------------------------------------------

  /** The describer accepts every rule of the text and finds the bitmap again. */
  ghost predicate Passes(t: Table, s: Selector)
    requires |s.bits| == BITS
  {
    var r := SelfCheck(t, s);
    r.Rebuilt? && r.s.bits == s.bits
  }

  lemma {:induction false} ReplayMore(t: Table, start: Selector, a: seq<bytes>, b: seq<bytes>)
    ensures var r := Replay(t, start, a);
            Replay(t, start, a + b) == if r.Failed? then Failed else Replay(t, r.s, b)
    decreases |b|
  {
    hide Parse, Set;
    if |b| == 0 {
      assert a + b == a;
    } else {
      assert (a + b)[..|a + b| - 1] == a + b[..|b| - 1];
      ReplayMore(t, start, a, b[..|b| - 1]);
    }
  }

  lemma SetBits(t: Table, s: Selector, u: Selector, op: bytes)
    requires s.bits == u.bits
    ensures Set(t, s, op).bits == Set(t, u, op).bits
  {
    hide Parse;
  }

  /** What rules do to the bitmap only depends on the bitmap. */
  lemma {:induction false} ReplayBits(t: Table, s: Selector, u: Selector, rules: seq<bytes>)
    requires s.bits == u.bits
    ensures var p, q := Replay(t, s, rules), Replay(t, u, rules);
            (p.Failed? <==> q.Failed?) && (p.Rebuilt? ==> p.s.bits == q.s.bits)
  {
    hide Parse, Set;
    if |rules| > 0 {
      var front, last := rules[..|rules| - 1], rules[|rules| - 1];
      ReplayBits(t, s, u, front);
      var p, q := Replay(t, s, front), Replay(t, u, front);
      if p.Rebuilt? {
        SetBits(t, p.s, q.s, last);
      }
    }
  }

  /** A rule about a first argument leaves no trace in the bitmap, and neither does dropping the
      rules about the same name. */
  lemma ArgKeepsBits(t: Table, s: Selector, op: bytes)
    requires Valid(t) && Good(t, s) && Parse(t, op).Rule? && Parse(t, op).target.FirstArg?
    ensures Set(t, s, op).bits == s.bits
    ensures var w := Without(s.rules, Parse(t, op).name);
            var r := Replay(t, Uniform(s.bits[RESERVED]), w);
            r.Rebuilt? && r.s.bits == s.bits
  {
    ParseRange(t, op);
    var p := Parse(t, op);
    var w, init := Without(s.rules, p.name), s.bits[RESERVED];
    WithoutCanonical(t, s.rules, p.name);
    NoStaleWithout(s.rules, p.name);
    ReplayRules(t, w, init);
    hide Parse, Replay, Without, NoStale, Canonical, Value;
    var v := Replay(t, Uniform(init), w).s;
    forall id | 0 <= id < BITS ensures v.bits[id] == s.bits[id] {
      var e := Bit(id);
      assert Tracked(t, e) && EffectOf(t, p.allow, p.target, e).Nothing?;
      ValueWithout(t, s.rules, op, init, e);
      assert In(v, e) == Value(t, w, init, e) && In(s, e) == Value(t, s.rules, init, e);
    }
  }

  lemma WithoutCanonical(t: Table, rules: seq<bytes>, name: bytes)
    requires AllCanonical(t, rules)
    ensures AllCanonical(t, Without(rules, name))
  {
    var w := Without(rules, name);
    forall i | 0 <= i < |w| ensures Canonical(t, w[i]) {
      WithoutMember(rules, name, w[i]);
      assert w[i] in w;
    }
  }

  /** After an accepted rule the describer goes through, without its assertions or its panic, if
      and only if the rule, split as a line, gives rules that are accepted and that do to the
      bitmap what the rule did.  (Rules about keys and channels are not modelled; as pieces of a
      rule they count as refused.) */
  lemma PanicIff(t: Table, s: Selector, op: bytes)
    requires Valid(t) && Good(t, s) && Parse(t, op).Rule? && 0 !in op
    ensures var u, line := Set(t, s, op), SplitFrom(Lower(op), 0, []);
            && |u.bits| == BITS
            && (Passes(t, u) <==>
                line.Args? && var r := Replay(t, s, line.argv); r.Rebuilt? && r.s.bits == u.bits)
  {
    PermitSize(t, s, op);
    Reparse(t, op);
    if Clean(op) {
      CleanPasses(t, s, op);
    } else {
      UncleanIsArg(t, op);
      UncleanPasses(t, s, op);
    }
  }

  lemma CleanPasses(t: Table, s: Selector, op: bytes)
    requires Valid(t) && Good(t, s) && Parse(t, op).Rule? && Clean(op)
    ensures var u, x := Set(t, s, op), Lower(op);
            && |u.bits| == BITS && Passes(t, u)
            && SplitFrom(x, 0, []) == Args([x])
            && Replay(t, s, [x]).Rebuilt? && Replay(t, s, [x]).s.bits == u.bits
  {
    hide Parse, Valid, Good, Clean, SplitFrom, Same, SelfCheck, Set, Replay;
    SetGood(t, s, op);
    GoodPasses(t, Set(t, s, op));
    CleanTokens(t, op);
    LowerSameBits(t, s, op);
    ReplayOne(t, s, Lower(op));
  }

  lemma GoodPasses(t: Table, s: Selector)
    requires Good(t, s)
    ensures |s.bits| == BITS && Passes(t, s)
  {
    DescribeSafe(t, s);
  }

  lemma CleanTokens(t: Table, op: bytes)
    requires Parse(t, op).Rule? && Clean(op)
    ensures SplitFrom(Lower(op), 0, []) == Args([Lower(op)])
  {
    LowerKeeps(op);
    assert Clean(Lower(op));
    SplitRules([Lower(op)]);
    JoinOne(Lower(op));
  }

  lemma LowerSameBits(t: Table, s: Selector, op: bytes)
    requires Parse(t, op).Rule?
    ensures Parse(t, Lower(op)).Rule? && Set(t, s, Lower(op)).bits == Set(t, s, op).bits
  {
    Reparse(t, op);
    hide Parse;
  }

  lemma ReplayOne(t: Table, s: Selector, x: bytes)
    requires !Parse(t, x).Refused?
    ensures Replay(t, s, [x]) == Rebuilt(Set(t, s, x))
  {
    hide Parse, Set;
    var rules := [x];
    assert rules[..0] == [] && Replay(t, s, rules[..0]) == Rebuilt(s);
  }

  lemma UncleanPasses(t: Table, s: Selector, op: bytes)
    requires Valid(t) && Good(t, s) && Parse(t, op).Rule? && Parse(t, op).target.FirstArg?
    requires |Set(t, s, op).bits| == BITS && Text(Parse(t, op).allow, Parse(t, op).name) == Lower(op)
    ensures var u, line := Set(t, s, op), SplitFrom(Lower(op), 0, []);
            Passes(t, u) <==>
            line.Args? && var r := Replay(t, s, line.argv); r.Rebuilt? && r.s.bits == u.bits
  {
    var u, x := Set(t, s, op), Lower(op);
    var w, init := Without(s.rules, Parse(t, op).name), s.bits[RESERVED];
    ArgKeepsBits(t, s, op);
    assert u.rules == w + [x];
    WithoutClean(s.rules, Parse(t, op).name, w);
    hide Parse, Valid, Good, Clean, SplitFrom, Replay, Set, Uniform, JoinRules;
    SplitBehind(w, x);
    var line := SplitFrom(x, 0, []);
    if line.Args? {
      var v := Replay(t, Uniform(init), w).s;
      ReplayMore(t, Uniform(init), w, line.argv);
      ReplayBits(t, v, s, line.argv);
    }
  }

  /** A concrete panic: `+get|a b` on a table with the command GET. */
  lemma BlankExample() returns (t: Table, op: bytes)
    ensures op == [43, 103, 101, 116, 124, 97, 32, 98] && Valid(t) && Parse(t, op).Rule?
    ensures Good(t, Uniform(false)) && |Set(t, Uniform(false), op).bits| == BITS
    ensures SelfCheck(t, Set(t, Uniform(false), op)) == Failed
  {
    var get: bytes := [103, 101, 116];
    t := Table([Command(get, 0, {}, [])], []);
    op := [43, 103, 101, 116, 124, 97, 32, 98];
    assert Valid(t);
    BlankParse(t, get, op);
    UniformGood(t, false);
    BlankTokens(t, op);
    BlankSet(t, op);
    hide Parse, Valid, Good, Set, SplitFrom, JoinRules;
  }

  lemma BlankLower(op: bytes)
    requires op == [43, 103, 101, 116, 124, 97, 32, 98]
    ensures Lower(op) == op
  {}

  lemma BlankSet(t: Table, op: bytes)
    requires op == [43, 103, 101, 116, 124, 97, 32, 98] && Parse(t, op).Rule?
    ensures var u := Set(t, Uniform(false), op); |u.bits| == BITS && JoinRules(u.rules) == op
  {
    PermitSize(t, Uniform(false), op);
    Reparse(t, op);
    BlankLower(op);
    FirstRule(t, op);
    JoinOne(op);
  }

  lemma FirstRule(t: Table, op: bytes)
    requires Parse(t, op).Rule? && Text(Parse(t, op).allow, Parse(t, op).name) == op
    ensures Set(t, Uniform(false), op).rules == [op]
  {
    hide Parse, Permit, Text;
    WithoutNothing([], Parse(t, op).name);
  }

  lemma BlankTokens(t: Table, op: bytes)
    requires op == [43, 103, 101, 116, 124, 97, 32, 98]
    ensures SplitFrom(op, 0, []).Args?
    ensures forall s :: Replay(t, s, SplitFrom(op, 0, []).argv) == Failed
  {
    var a: bytes, b: bytes := [43, 103, 101, 116, 124, 97], [98];
    assert Clean(a) && Clean(b);
    SplitRules([a, b]);
    JoinAppend([a], [b]);
    JoinOne(a);
    JoinOne(b);
    assert [a] + [b] == [a, b] && a + [SPACE] + b == op;
    assert Lower(b)[0] == 98;
    assert Parse(t, b).Refused?;
    assert [a, b][..1] == [a];
  }

  lemma BlankParse(t: Table, get: bytes, op: bytes)
    requires get == [103, 101, 116] && t.commands == [Command(get, 0, {}, [])]
    requires op == [43, 103, 101, 116, 124, 97, 32, 98]
    ensures Parse(t, op).Rule? && !Clean(op) && 0 !in op
  {
    var rest := op[1..];
    assert rest == get + [BAR, 97, 32, 98];
    BlankLookup(t, get, rest);
    assert Lower(op)[0] == 43 && Lower(op)[1] == 103;
    hide Lookup, LastBar, FirstBar, Lower, IndexOf;
    assert !PlainChar(op[6]);
  }

  lemma BlankLookup(t: Table, get: bytes, rest: bytes)
    requires get == [103, 101, 116] && t.commands == [Command(get, 0, {}, [])] && rest == get + [BAR, 97, 32, 98]
    ensures LastBar(rest) == 3 && Lookup(t, rest[..3]) == Whole(0)
  {
    assert rest[3] == BAR && rest[..3] == get;
    assert LastBar(rest) == 3 by { BarPlaces(rest, 3); }
    NoBar(get);
    assert Names(t.commands)[0] == get;
  }

  // ------------------------------------------------------------------------------
  // Command ids
  // ------------------------------------------------------------------------------

  /** `commandId` and `nextid`. */
  class CommandIds {
    var ids: map<bytes, nat>
    var next: nat

    /** Names in lower case have distinct ids, and no id is the reserved one. */
    ghost predicate Valid()
      reads this
    {
      && next != RESERVED
      && (forall n :: n in ids ==> ids[n] < next && ids[n] != RESERVED && Lower(n) == n)
      && (forall n, m :: n in ids && m in ids && ids[n] == ids[m] ==> n == m)
    }

    constructor ()
      ensures Valid() && ids == map[] && next == 0
    {
      ids, next := map[], 0;
    }

    /** `ACLGetCommandID`. */
    method GetCommandId(name: bytes) returns (id: nat)
      requires Valid()
      modifies this
      ensures Valid() && Lower(name) in ids && ids[Lower(name)] == id != RESERVED
      ensures forall n :: n in old(ids) ==> n in ids && ids[n] == old(ids)[n]
      ensures forall n :: n in ids ==> n in old(ids) || n == Lower(name)
      ensures Lower(name) in old(ids) ==> next == old(next)
      ensures Lower(name) !in old(ids) ==> id == old(next) && next == if id + 1 == 1023 then id + 2 else id + 1
    {
      var lower := Lower(name);
      LowerTwice(name);
      if lower in ids {
        return ids[lower];
      }
      ids := ids[lower := next];
      id := next;
      next := next + 1;
      if next == RESERVED {
        next := next + 1;
      }
    }
  }
}
