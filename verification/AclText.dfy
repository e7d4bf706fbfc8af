/** The text of a selector's command rules: signed names with single spaces between them, kept
    in one zero-terminated buffer that is edited in place. */
module AclText {
  import opened ByteStrings
  import opened Sds

  const PLUS: byte := 43
  const MINUS: byte := 45
  const AT_SIGN: byte := 64
  const BAR: byte := 124

  /** A rule as the editor sees it: a sign, then a name up to a space. */
  predicate Shaped(rule: bytes) {
    |rule| > 0 && 0 !in rule && forall k :: 1 <= k < |rule| ==> rule[k] != SPACE
  }

  predicate AllShaped(rules: seq<bytes>) {
    forall i :: 0 <= i < |rules| ==> Shaped(rules[i])
  }

  function JoinRules(rules: seq<bytes>): bytes {
    if |rules| == 0 then []
    else if |rules| == 1 then rules[0]
    else rules[0] + [SPACE] + JoinRules(rules[1..])
  }

  /** The rule is about `name` itself, or about a part of it. */
  predicate About(rule: bytes, name: bytes) {
    && |name| + 1 <= |rule| && rule[1..|name| + 1] == name
    && (|rule| == |name| + 1 || rule[|name| + 1] == BAR)
  }

  function Without(rules: seq<bytes>, name: bytes): seq<bytes> {
    if |rules| == 0 then []
    else (if About(rules[0], name) then [] else [rules[0]]) + Without(rules[1..], name)
  }

  lemma {:induction false} WithoutAppend(a: seq<bytes>, b: seq<bytes>, name: bytes)
    ensures Without(a + b, name) == Without(a, name) + Without(b, name)
  {
    if |a| == 0 {
      assert a + b == b;
    } else {
      assert (a + b)[1..] == a[1..] + b;
      WithoutAppend(a[1..], b, name);
    }
  }

  lemma {:induction false} WithoutMember(rules: seq<bytes>, name: bytes, r: bytes)
    ensures r in Without(rules, name) <==> r in rules && !About(r, name)
  {
    if |rules| > 0 {
      WithoutMember(rules[1..], name, r);
      assert rules == [rules[0]] + rules[1..];
    }
  }

  lemma {:induction false} JoinAppend(a: seq<bytes>, b: seq<bytes>)
    requires |a| > 0 && |b| > 0
    ensures JoinRules(a + b) == JoinRules(a) + [SPACE] + JoinRules(b)
  {
    if |a| == 1 {
      assert (a + b)[1..] == b;
    } else {
      assert (a + b)[1..] == a[1..] + b;
      JoinAppend(a[1..], b);
    }
  }

  lemma JoinNonEmpty(rules: seq<bytes>)
    requires AllShaped(rules)
    ensures |JoinRules(rules)| == 0 <==> rules == []
  {}

  // ------------------------------------------------------------------------------
  // Editing in place
  // ------------------------------------------------------------------------------

  /** The buffer holds the zero-terminated string `text`. */
  predicate Holds(buf: bytes, text: bytes) {
    |text| < |buf| && buf[..|text|] == text && buf[|text|] == 0 && 0 !in text
  }

  method Strlen(buf: array<byte>, from: nat, ghost text: bytes) returns (n: nat)
    requires Holds(buf[..], text) && from <= |text|
    ensures n == |text| - from
  {
    n := 0;
    while buf[from + n] != 0
      invariant from + n <= |text|
      decreases |text| - n
    {
      n := n + 1;
    }
  }

  /** The end of the name that starts at `from`: the next space, or the end of the string. */
  method NameEnd(buf: array<byte>, from: nat, ghost text: bytes) returns (e: nat)
    requires Holds(buf[..], text) && from <= |text|
    ensures from <= e <= |text| && (e < |text| ==> text[e] == SPACE)
    ensures forall k :: from <= k < e ==> text[k] != SPACE
    ensures buf[e] == if e < |text| then text[e] else 0
  {
    e := from;
    assert forall k :: 0 <= k < |text| ==> buf[k] == text[k] by {
      assert forall k :: 0 <= k < |text| ==> buf[..][..|text|][k] == text[k];
    }
    while buf[e] != 0 && buf[e] != SPACE
      invariant from <= e <= |text|
      invariant forall k :: from <= k < e ==> text[k] != SPACE
      decreases |text| - e
    {
      e := e + 1;
    }
    if e < |text| {
      assert text[e] in text;
    }
  }

  /** `memmove` of `n` bytes towards the front. */
  method MoveDown(buf: array<byte>, dst: nat, src: nat, n: nat)
    requires dst <= src && src + n <= buf.Length
    modifies buf
    ensures buf[..] == Overlaid(old(buf[..]), dst, src, n)
  {
    ghost var was := buf[..];
    var i := 0;
    assert buf[..] == Overlaid(was, dst, src, 0);
    while i < n
      invariant i <= n && buf[..] == Overlaid(was, dst, src, i)
    {
      OverlaidNext(was, dst, src, i);
      buf[dst + i] := buf[src + i];
      i := i + 1;
    }
  }

  function Overlaid(was: bytes, dst: nat, src: nat, n: nat): (r: bytes)
    requires dst <= src && src + n <= |was|
    ensures |r| == |was|
  {
    was[..dst] + was[src..src + n] + was[dst + n..]
  }

  lemma OverlaidNext(was: bytes, dst: nat, src: nat, i: nat)
    requires dst <= src && src + i < |was|
    ensures Overlaid(was, dst, src, i)[src + i] == was[src + i]
    ensures Overlaid(was, dst, src, i + 1) == Overlaid(was, dst, src, i)[dst + i := was[src + i]]
  {
    var a, b := Overlaid(was, dst, src, i + 1), Overlaid(was, dst, src, i)[dst + i := was[src + i]];
    forall k | 0 <= k < |was| ensures a[k] == b[k] {}
  }

  /** The string after its part `dst..src` has been moved over. */
  lemma Moved(before: bytes, after: bytes, text: bytes, dst: nat, src: nat)
    requires Holds(before, text) && dst <= src <= |text|
    requires after == Overlaid(before, dst, src, |text| - src + 1)
    ensures Holds(after, text[..dst] + text[src..])
  {
    var t := text[..dst] + text[src..];
    assert forall k :: 0 <= k < |text| ==> before[k] == text[k] by {
      assert forall k :: 0 <= k < |text| ==> before[..|text|][k] == text[k];
    }
    assert after[..|t|] == t;
    assert before[src..|text| + 1][|text| - src] == 0;
  }

  /** Where the text of `rest` starts in the text of `kept + rest`. */
  function Offset(kept: seq<bytes>): nat {
    if |kept| == 0 then 0 else |JoinRules(kept)| + 1
  }

  /** The text around one rule: where it stands, and what is left without it. */
  predicate Around(kept: seq<bytes>, rest: seq<bytes>)
    requires |rest| > 0
  {
    var text := JoinRules(kept + rest);
    var p, e := Offset(kept), Offset(kept) + |rest[0]|;
    && e <= |text| && text[p..e] == rest[0] && e + 1 == Offset(kept + [rest[0]])
    && (|rest| > 1 ==> e < |text| && text[e] == SPACE && text[..p] + text[e + 1..] == JoinRules(kept + rest[1..]))
    && (|rest| == 1 ==> e == |text| && (if |kept| > 0 then text[..p - 1] else []) == JoinRules(kept + rest[1..]))
  }

  lemma RuleFirst(rest: seq<bytes>)
    requires |rest| > 0
    ensures Around([], rest)
  {
    assert [] + rest == rest && [] + rest[1..] == rest[1..] && [] + [rest[0]] == [rest[0]];
    var text := JoinRules(rest);
    if |rest| > 1 {
      assert text[..0] + text[|rest[0]| + 1..] == JoinRules(rest[1..]);
    }
  }

  lemma RuleInside(kept: seq<bytes>, rest: seq<bytes>)
    requires |kept| > 0 && |rest| > 1
    ensures Around(kept, rest)
  {
    var text, p, e := JoinRules(kept + rest), Offset(kept), Offset(kept) + |rest[0]|;
    var a, c := JoinRules(kept), JoinRules(rest[1..]);
    JoinAppend(kept, rest);
    JoinAppend(kept, [rest[0]]);
    JoinAppend(kept, rest[1..]);
    hide JoinRules;
    assert JoinRules(rest) == rest[0] + [SPACE] + c by {
      JoinAppend([rest[0]], rest[1..]);
      assert [rest[0]] + rest[1..] == rest;
      JoinOne(rest[0]);
    }
    JoinOne(rest[0]);
    assert text == a + [SPACE] + rest[0] + [SPACE] + c;
    assert text[..p] == a + [SPACE];
    assert text[e + 1..] == c;
  }

  lemma JoinOne(rule: bytes)
    ensures JoinRules([rule]) == rule
  {}

  lemma RuleLast(kept: seq<bytes>, rest: seq<bytes>)
    requires |kept| > 0 && |rest| == 1
    ensures Around(kept, rest)
  {
    JoinAppend(kept, rest);
    assert kept + rest[1..] == kept && rest == [rest[0]];
    JoinOne(rest[0]);
    hide JoinRules;
    assert JoinRules(kept + rest) == JoinRules(kept) + [SPACE] + rest[0];
  }

  lemma RuleAt(kept: seq<bytes>, rest: seq<bytes>)
    requires |rest| > 0
    ensures Around(kept, rest)
  {
    hide Around;
    if |kept| == 0 {
      RuleFirst(rest);
    } else if |rest| == 1 {
      RuleLast(kept, rest);
    } else {
      RuleInside(kept, rest);
    }
  }

  /** `memcmp` over the common length, then the two ways to match. */
  method Compare(buf: array<byte>, from: nat, len: nat, name: bytes) returns (r: bool)
    requires from + len < buf.Length
    ensures r == (|name| <= len && buf[from..from + |name|] == name && (len == |name| || buf[from + |name|] == BAR))
  {
    var m := if len < |name| then len else |name|;
    var i := 0;
    while i < m && buf[from + i] == name[i]
      invariant i <= m && forall k :: 0 <= k < i ==> buf[from + k] == name[k]
    {
      i := i + 1;
    }
    r := i == m && (len == |name| || (len > |name| && buf[from + |name|] == BAR));
    if i < m && |name| <= len {
      assert buf[from..from + |name|][i] != name[i];
    }
  }

  lemma CompareIsAbout(buf: bytes, text: bytes, p: nat, rule: bytes, name: bytes)
    requires Holds(buf, text) && |rule| > 0 && p + |rule| <= |text| && text[p..p + |rule|] == rule
    ensures var from, len := p + 1, |rule| - 1;
            (|name| <= len && buf[from..from + |name|] == name &&
                (len == |name| || buf[from + |name|] == BAR)) == About(rule, name)
  {
    assert forall k :: 0 <= k < |rule| ==> buf[p + k] == rule[k] by {
      forall k | 0 <= k < |rule| ensures buf[p + k] == rule[k] {
        assert buf[..|text|][p + k] == text[p + k] && text[p..p + |rule|][k] == rule[k];
      }
    }
    if |name| < |rule| {
      assert buf[p + 1..p + 1 + |name|] == rule[1..|name| + 1];
    }
  }

  lemma NameEndIs(text: bytes, p: nat, rule: bytes, e: nat)
    requires Shaped(rule) && p + |rule| <= |text| && text[p..p + |rule|] == rule
    requires p + |rule| == |text| || text[p + |rule|] == SPACE
    requires p + 1 <= e <= |text| && (e < |text| ==> text[e] == SPACE)
    requires forall k :: p + 1 <= k < e ==> text[k] != SPACE
    ensures e == p + |rule|
  {
    assert e > p + |rule| || e <= p + |rule|;
  }

  method RuleEnd(buf: array<byte>, pos: nat, ghost text: bytes, ghost rule: bytes) returns (e: nat)
    requires Holds(buf[..], text) && Shaped(rule) && pos + |rule| <= |text| && text[pos..pos + |rule|] == rule
    requires pos + |rule| == |text| || text[pos + |rule|] == SPACE
    ensures e == pos + |rule| < buf.Length && buf[e] == if e < |text| then SPACE else 0
  {
    e := NameEnd(buf, pos + 1, text);
    NameEndIs(text, pos, rule, e);
  }

  method IsAbout(buf: array<byte>, pos: nat, len: nat, name: bytes, ghost text: bytes, ghost rule: bytes)
    returns (r: bool)
    requires Holds(buf[..], text) && |rule| == len + 1 && pos + |rule| <= |text| && text[pos..pos + |rule|] == rule
    ensures r == About(rule, name)
  {
    r := Compare(buf, pos + 1, len, name);
    CompareIsAbout(buf[..], text, pos, rule, name);
    assert |name| <= len ==> buf[pos + 1..pos + 1 + |name|] == buf[..][pos + 1..pos + 1 + |name|];
  }

  /** One rule of the buffer: what to copy over what if it goes, and whether it goes. */
  method Scan(buf: array<byte>, pos: nat, name: bytes, ghost kept: seq<bytes>, ghost rest: seq<bytes>)
    returns (copyPosition: nat, copyEnd: nat, same: bool)
    requires AllShaped(kept + rest) && |rest| > 0 && Holds(buf[..], JoinRules(kept + rest)) && pos == Offset(kept)
    ensures same == About(rest[0], name)
    ensures var text := JoinRules(kept + rest);
            && copyPosition <= copyEnd <= |text|
            && text[..copyPosition] + text[copyEnd..] == JoinRules(kept + rest[1..])
            && copyEnd == (if |rest| > 1 then Offset(kept + [rest[0]]) else |text|)
            && copyPosition == (if |rest| > 1 then pos else |JoinRules(kept)|)
  {
    ghost var text := JoinRules(kept + rest);
    ScanFacts(kept, rest);
    hide JoinRules, About, AllShaped, Offset, Holds, Shaped;
    ShapedLength(rest[0]);
    copyPosition := pos;
    var start := pos + 1;
    var ruleEnd := RuleEnd(buf, pos, text, rest[0]);
    if buf[ruleEnd] == 0 {
      if copyPosition != 0 {
        copyPosition := copyPosition - 1;
      }
    }
    copyEnd := ruleEnd;
    if buf[copyEnd] == SPACE {
      copyEnd := copyEnd + 1;
    }
    same := IsAbout(buf, pos, ruleEnd - start, name, text, rest[0]);
    assert copyPosition == CopyTo(kept, rest) && copyEnd == CopyFrom(kept, rest);
  }

  function CopyTo(kept: seq<bytes>, rest: seq<bytes>): nat {
    if |rest| > 1 || |kept| == 0 then Offset(kept) else Offset(kept) - 1
  }

  function CopyFrom(kept: seq<bytes>, rest: seq<bytes>): nat
    requires |rest| > 0
  {
    Offset(kept) + |rest[0]| + if |rest| > 1 then 1 else 0
  }

  lemma ScanFacts(kept: seq<bytes>, rest: seq<bytes>)
    requires AllShaped(kept + rest) && |rest| > 0
    ensures Shaped(rest[0])
    ensures var text, p := JoinRules(kept + rest), Offset(kept); var e := p + |rest[0]|;
            && e <= |text| && text[p..e] == rest[0] && (|rest| > 1 ==> e < |text| && text[e] == SPACE)
            && (|rest| == 1 ==> e == |text|) && (p == 0 <==> |kept| == 0)
    ensures var text := JoinRules(kept + rest); var to, from := CopyTo(kept, rest), CopyFrom(kept, rest);
            && to <= from <= |text| && text[..to] + text[from..] == JoinRules(kept + rest[1..])
            && from == (if |rest| > 1 then Offset(kept + [rest[0]]) else |text|)
            && to == (if |rest| > 1 then Offset(kept) else |JoinRules(kept)|)
  {
    RuleAt(kept, rest);
    assert (kept + rest)[|kept|] == rest[0];
    assert |rest| == 1 ==> kept + rest[1..] == kept;
  }

  /** How far the walk has come: `kept` is behind it, `rest` is still to be read at `pos`. */
  predicate Walking(buf: bytes, kept: seq<bytes>, rest: seq<bytes>, pos: nat) {
    && AllShaped(kept + rest) && Holds(buf, JoinRules(kept + rest))
    && pos == (if |rest| == 0 then |JoinRules(kept)| else Offset(kept)) <= |JoinRules(kept + rest)|
  }

  lemma WalkEnd(buf: bytes, kept: seq<bytes>, rest: seq<bytes>, pos: nat)
    requires Walking(buf, kept, rest, pos)
    ensures pos < |buf| && (buf[pos] == 0 <==> rest == [])
    ensures rest == [] ==> Holds(buf, JoinRules(kept))
  {
    if |rest| > 0 {
      RuleAt(kept, rest);
      var text := JoinRules(kept + rest);
      assert (kept + rest)[|kept|] == rest[0] && rest[0][0] in rest[0];
      assert buf[..|text|][pos] == text[pos] == text[pos..pos + |rest[0]|][0];
    } else {
      assert kept + rest == kept;
    }
  }

  lemma WalkDrop(buf: bytes, kept: seq<bytes>, rest: seq<bytes>, pos: nat)
    requires |rest| > 0 && AllShaped(kept + rest) && Holds(buf, JoinRules(kept + rest[1..]))
    requires pos == if |rest| > 1 then Offset(kept) else |JoinRules(kept)|
    ensures Walking(buf, kept, rest[1..], pos)
  {
    forall i | 0 <= i < |kept + rest[1..]| ensures Shaped((kept + rest[1..])[i]) {
      assert (kept + rest[1..])[i] == (kept + rest)[if i < |kept| then i else i + 1];
    }
    if |rest| > 1 {
      RuleAt(kept, rest[1..]);
    } else {
      assert kept + rest[1..] == kept;
    }
  }

  lemma WalkKeep(buf: bytes, kept: seq<bytes>, rest: seq<bytes>, pos: nat)
    requires |rest| > 0 && AllShaped(kept + rest) && Holds(buf, JoinRules(kept + rest))
    requires pos == if |rest| > 1 then Offset(kept + [rest[0]]) else |JoinRules(kept + rest)|
    ensures Walking(buf, kept + [rest[0]], rest[1..], pos)
  {
    assert (kept + [rest[0]]) + rest[1..] == kept + rest;
    if |rest| > 1 {
      RuleAt(kept + [rest[0]], rest[1..]);
    } else {
      assert kept + [rest[0]] == kept + rest;
    }
  }

  /** `ACLSelectorRemoveCommandRule`: in place, every rule about `name` is dropped. */
  method RemoveRule(buf: array<byte>, name: bytes, ghost rules: seq<bytes>)
    requires AllShaped(rules) && Holds(buf[..], JoinRules(rules))
    modifies buf
    ensures Holds(buf[..], JoinRules(Without(rules, name)))
  {
    var pos: nat := 0;
    ghost var kept: seq<bytes>, rest := [], rules;
    assert [] + Without(rules, name) == Without(rules, name);
    assert Walking(buf[..], kept, rest, pos) by {
      assert kept + rest == rules;
    }
    hide JoinRules, Without, About, Overlaid, Holds, AllShaped;
    WalkEnd(buf[..], kept, rest, pos);
    while buf[pos] != 0
      invariant Walking(buf[..], kept, rest, pos) && pos < buf.Length
      invariant Without(rules, name) == kept + Without(rest, name)
      decreases |rest|
    {
      WalkEnd(buf[..], kept, rest, pos);
      ghost var text := JoinRules(kept + rest);
      var copyPosition, copyEnd, same := Scan(buf, pos, name, kept, rest);
      StepWithout(rules, kept, rest, name);
      if same {
        var n := Strlen(buf, copyEnd, text);
        ghost var before := buf[..];
        assert copyEnd + n + 1 <= buf.Length by { HoldsLength(before, text); }
        MoveDown(buf, copyPosition, copyEnd, n + 1);
        Moved(before, buf[..], text, copyPosition, copyEnd);
        pos := copyPosition;
        WalkDrop(buf[..], kept, rest, pos);
        rest := rest[1..];
      } else {
        pos := copyEnd;
        WalkKeep(buf[..], kept, rest, pos);
        kept, rest := kept + [rest[0]], rest[1..];
      }
      WalkEnd(buf[..], kept, rest, pos);
    }
    WalkEnd(buf[..], kept, rest, pos);
    NoneLeft(name);
    assert kept + [] == kept;
  }

  lemma ShapedLength(rule: bytes)
    requires Shaped(rule)
    ensures |rule| > 0
  {}

  lemma HoldsLength(buf: bytes, text: bytes)
    requires Holds(buf, text)
    ensures |text| < |buf|
  {}

  lemma NoneLeft(name: bytes)
    ensures Without([], name) == []
  {}

  lemma StepWithout(rules: seq<bytes>, kept: seq<bytes>, rest: seq<bytes>, name: bytes)
    requires |rest| > 0 && Without(rules, name) == kept + Without(rest, name)
    ensures Without(rules, name) ==
            (if About(rest[0], name) then kept else kept + [rest[0]]) + Without(rest[1..], name)
  {}

  // ------------------------------------------------------------------------------
  // Reading the text back
  // ------------------------------------------------------------------------------

  /** A rule the argument splitter takes as it is: no blank and no quote in it. */
  predicate Clean(rule: bytes) {
    |rule| > 0 && !IsSpace(rule[0]) && 0 !in rule && forall k :: 0 <= k < |rule| ==> PlainChar(rule[k])
  }

  lemma ReadClean(s: bytes, i: nat, rule: bytes)
    requires Clean(rule) && At(s, i, rule) && (i + |rule| < |s| ==> s[i + |rule|] == SPACE)
    ensures SkipBlanks(s, i) == i
    ensures ReadToken(s, i, Bare, []) == Token(rule, if i + |rule| < |s| then i + |rule| + 1 else |s|)
  {
    assert s[i] == s[i..i + |rule|][0];
    ReadBare(s, i, rule, []);
    assert [] + rule == rule;
  }

  lemma SplitOne(s: bytes, i: nat, argv: seq<bytes>, tok: bytes, next: nat)
    requires i < |s| && SkipBlanks(s, i) == i && ReadToken(s, i, Bare, []) == Token(tok, next)
    ensures next <= |s| && SplitFrom(s, i, argv) == SplitFrom(s, next, argv + [tok])
  {
    hide ReadToken, SkipBlanks;
    TokenMoves(s, i);
  }

  /** The clean rules in front of the rest of a line come out as they went in. */
  lemma {:induction false} SplitClean(s: bytes, i: nat, rules: seq<bytes>, argv: seq<bytes>)
    requires |rules| > 0 && At(s, i, JoinRules(rules)) && forall k :: 0 <= k < |rules| ==> Clean(rules[k])
    requires var e := i + |JoinRules(rules)|; e < |s| ==> s[e] == SPACE
    ensures var e := i + |JoinRules(rules)|;
            e <= |s| && SplitFrom(s, i, argv) == SplitFrom(s, if e < |s| then e + 1 else e, argv + rules)
    decreases |rules|
  {
    hide ReadToken, At, SkipBlanks, SplitFrom;
    AtLength(s, i, JoinRules(rules));
    if |rules| == 1 {
      ReadClean(s, i, rules[0]);
      SplitOne(s, i, argv, rules[0], if i + |rules[0]| < |s| then i + |rules[0]| + 1 else |s|);
      assert [rules[0]] == rules;
    } else {
      var r, rest := rules[0], JoinRules(rules[1..]);
      AtSplit(s, i, r + [SPACE], rest);
      AtSplit(s, i, r, [SPACE]);
      AtLength(s, i, r + [SPACE]);
      AtOne(s, i + |r|, SPACE);
      ReadClean(s, i, r);
      SplitOne(s, i, argv, r, i + |r| + 1);
      SplitClean(s, i + |r| + 1, rules[1..], argv + [r]);
      assert argv + [r] + rules[1..] == argv + rules;
    }
  }

  /** `sdssplitargs` of the rules' text gives the rules. */
  lemma SplitRules(rules: seq<bytes>)
    requires forall k :: 0 <= k < |rules| ==> Clean(rules[k])
    ensures SplitFrom(JoinRules(rules), 0, []) == Args(rules)
  {
    var s := JoinRules(rules);
    if |rules| > 0 {
      assert s[0..|s|] == s;
      SplitClean(s, 0, rules, []);
      assert [] + rules == rules;
    }
    SplitEnd(s, rules);
  }

  lemma {:induction false} TokenLength(s: bytes, i: nat, mode: Mode, cur: bytes)
    requires i <= |s|
    ensures var t := ReadToken(s, i, mode, cur);
            && (t.Token? ==> |t.text| <= |cur| + t.next - i && (mode != Bare ==> |t.text| < |cur| + t.next - i))
            && (t.Token? && mode == Bare && |t.text| == |cur| + t.next - i ==>
                  forall k :: i <= k < t.next ==> PlainChar(s[k]))
    decreases |s| - i
  {
    match mode
    case Bare =>
      if i < |s| && !(s[i] == SPACE || s[i] == LF || s[i] == CR || s[i] == 9) {
        if s[i] == DQUOTE {
          TokenLength(s, i + 1, Double, cur);
        } else if s[i] == SQUOTE {
          TokenLength(s, i + 1, Single, cur);
        } else {
          TokenLength(s, i + 1, Bare, cur + [s[i]]);
        }
      }
    case Double =>
      if i + 3 < |s| && s[i] == BACKSLASH && s[i + 1] == LETTER_X && IsHex(s[i + 2]) && IsHex(s[i + 3]) {
        TokenLength(s, i + 4, Double, cur + [HexValue(s[i + 2]) * 16 + HexValue(s[i + 3])]);
      } else if i + 1 < |s| && s[i] == BACKSLASH {
        TokenLength(s, i + 2, Double, cur + [FromLetter(s[i + 1])]);
      } else if i < |s| && s[i] != DQUOTE {
        TokenLength(s, i + 1, Double, cur + [s[i]]);
      }
    case Single =>
      if i + 1 < |s| && s[i] == BACKSLASH && s[i + 1] == SQUOTE {
        TokenLength(s, i + 2, Single, cur + [SQUOTE]);
      } else if i < |s| && s[i] != SQUOTE {
        TokenLength(s, i + 1, Single, cur + [s[i]]);
      }
  }

  /** Every token of a line with a blank or a quote in it is shorter than the line. */
  lemma {:induction false} SplitShort(s: bytes, i: nat, argv: seq<bytes>, k: nat)
    requires i <= k < |s| && !PlainChar(s[k])
    ensures var r := SplitFrom(s, i, argv);
            r.Args? ==> argv <= r.argv && forall n :: |argv| <= n < |r.argv| ==> |r.argv[n]| < |s| - i
    decreases |s| - i
  {
    hide ReadToken;
    var j := SkipBlanks(s, i);
    if j < |s| {
      TokenMoves(s, j);
      TokenLength(s, j, Bare, []);
      var t := ReadToken(s, j, Bare, []);
      if t.Token? {
        assert |t.text| < |s| - i;
        SplitLater(s, t.next, argv + [t.text], |s| - i);
      }
    }
  }

  lemma {:induction false} SplitLater(s: bytes, i: nat, argv: seq<bytes>, bound: nat)
    requires i <= |s| && |s| - i < bound
    ensures var r := SplitFrom(s, i, argv);
            r.Args? ==> argv <= r.argv && forall n :: |argv| <= n < |r.argv| ==> |r.argv[n]| < bound
    decreases |s| - i
  {
    hide ReadToken;
    var j := SkipBlanks(s, i);
    if j < |s| {
      TokenMoves(s, j);
      TokenLength(s, j, Bare, []);
      var t := ReadToken(s, j, Bare, []);
      if t.Token? {
        SplitLater(s, t.next, argv + [t.text], bound);
      }
    }
  }

  // ------------------------------------------------------------------------------
  // What stands before a position does not matter to the splitter
  // ------------------------------------------------------------------------------

  /** From position `d` on, `s` is `x`. */
  predicate Ends(s: bytes, d: nat, x: bytes) {
    |s| == d + |x| && forall k :: 0 <= k < |x| ==> s[d + k] == x[k]
  }

  /** A token of `x`, as it is seen in `s`. */
  function Further(t: Token, d: nat): Token {
    if t.Bad? then Bad else Token(t.text, d + t.next)
  }

  lemma {:induction false} ReadShift(s: bytes, d: nat, x: bytes, i: nat, mode: Mode, cur: bytes)
    requires Ends(s, d, x) && i <= |x|
    ensures ReadToken(s, d + i, mode, cur) == Further(ReadToken(x, i, mode, cur), d)
    decreases |x| - i, 1
  {
    match mode
    case Bare => ReadShiftBare(s, d, x, i, cur);
    case Double => ReadShiftDouble(s, d, x, i, cur);
    case Single => ReadShiftSingle(s, d, x, i, cur);
  }

  lemma {:induction false} ReadShiftBare(s: bytes, d: nat, x: bytes, i: nat, cur: bytes)
    requires Ends(s, d, x) && i <= |x|
    ensures ReadToken(s, d + i, Bare, cur) == Further(ReadToken(x, i, Bare, cur), d)
    decreases |x| - i, 0
  {
    if i < |x| {
      assert s[d + i] == x[i];
      if x[i] == DQUOTE {
        ReadShift(s, d, x, i + 1, Double, cur);
      } else if x[i] == SQUOTE {
        ReadShift(s, d, x, i + 1, Single, cur);
      } else {
        ReadShift(s, d, x, i + 1, Bare, cur + [x[i]]);
      }
    }
  }

  lemma {:induction false} ReadShiftDouble(s: bytes, d: nat, x: bytes, i: nat, cur: bytes)
    requires Ends(s, d, x) && i <= |x|
    ensures ReadToken(s, d + i, Double, cur) == Further(ReadToken(x, i, Double, cur), d)
    decreases |x| - i, 0
  {
    if i < |x| {
      assert s[d + i] == x[i];
      if i + 1 < |x| {
        assert s[d + (i + 1)] == x[i + 1];
      }
      if i + 3 < |x| {
        assert s[d + (i + 2)] == x[i + 2] && s[d + (i + 3)] == x[i + 3];
      }
      hide Ends, HexValue, FromLetter, IsHex, IsSpace;
      if i + 3 < |x| && x[i] == BACKSLASH && x[i + 1] == LETTER_X && IsHex(x[i + 2]) && IsHex(x[i + 3]) {
        ReadShift(s, d, x, i + 4, Double, cur + [HexValue(x[i + 2]) * 16 + HexValue(x[i + 3])]);
      } else if i + 1 < |x| && x[i] == BACKSLASH {
        ReadShift(s, d, x, i + 2, Double, cur + [FromLetter(x[i + 1])]);
      } else if x[i] != DQUOTE {
        ReadShift(s, d, x, i + 1, Double, cur + [x[i]]);
      }
    }
  }

  lemma {:induction false} ReadShiftSingle(s: bytes, d: nat, x: bytes, i: nat, cur: bytes)
    requires Ends(s, d, x) && i <= |x|
    ensures ReadToken(s, d + i, Single, cur) == Further(ReadToken(x, i, Single, cur), d)
    decreases |x| - i, 0
  {
    if i < |x| {
      assert s[d + i] == x[i];
      if i + 1 < |x| {
        assert s[d + (i + 1)] == x[i + 1];
      }
      if i + 1 < |x| && x[i] == BACKSLASH && x[i + 1] == SQUOTE {
        ReadShift(s, d, x, i + 2, Single, cur + [SQUOTE]);
      } else if x[i] != SQUOTE {
        ReadShift(s, d, x, i + 1, Single, cur + [x[i]]);
      }
    }
  }

  lemma {:induction false} SkipShift(s: bytes, d: nat, x: bytes, i: nat)
    requires Ends(s, d, x) && i <= |x|
    ensures SkipBlanks(s, d + i) == d + SkipBlanks(x, i)
    decreases |x| - i
  {
    if i < |x| {
      assert s[d + i] == x[i];
      SkipShift(s, d, x, i + 1);
    }
  }

  lemma {:induction false} SplitShift(s: bytes, d: nat, x: bytes, i: nat, before: seq<bytes>, argv: seq<bytes>)
    requires Ends(s, d, x) && i <= |x|
    ensures var r := SplitFrom(x, i, argv);
            SplitFrom(s, d + i, before + argv) == if r.Unbalanced? then Unbalanced else Args(before + r.argv)
    decreases |x| - i
  {
    hide ReadToken, SkipBlanks;
    var j := SkipBlanks(x, i);
    SkipShift(s, d, x, i);
    if j < |x| {
      ReadShift(s, d, x, j, Bare, []);
      TokenMoves(x, j);
      var t := ReadToken(x, j, Bare, []);
      if t.Token? {
        SplitShift(s, d, x, t.next, before, argv + [t.text]);
        assert before + argv + [t.text] == before + (argv + [t.text]);
      }
    }
  }

  lemma JoinedEnds(p: bytes, x: bytes)
    ensures var line := p + [SPACE] + x;
            line[0..|p|] == p && |p| < |line| && line[|p|] == SPACE && Ends(line, |p| + 1, x)
  {}

  /** Clean rules and then any rule: the splitter gives the clean ones, then what it makes of the
      other one alone. */
  lemma SplitBehind(w: seq<bytes>, x: bytes)
    requires forall i :: 0 <= i < |w| ==> Clean(w[i])
    ensures var r := SplitFrom(x, 0, []);
            SplitFrom(JoinRules(w + [x]), 0, []) == if r.Unbalanced? then Unbalanced else Args(w + r.argv)
  {
    JoinOne(x);
    if |w| == 0 {
      assert w + [x] == [x];
      var r := SplitFrom(x, 0, []);
      assert r.Args? ==> w + r.argv == r.argv;
    } else {
      JoinAppend(w, [x]);
      SplitJoined(w, JoinRules(w), x);
    }
  }

  lemma SplitJoined(w: seq<bytes>, p: bytes, x: bytes)
    requires |w| > 0 && p == JoinRules(w) && forall i :: 0 <= i < |w| ==> Clean(w[i])
    ensures var r := SplitFrom(x, 0, []);
            SplitFrom(p + [SPACE] + x, 0, []) == if r.Unbalanced? then Unbalanced else Args(w + r.argv)
  {
    hide Clean, SplitFrom, JoinRules, Ends;
    var line := p + [SPACE] + x;
    JoinedEnds(p, x);
    SplitClean(line, 0, w, []);
    assert [] + w == w && w + [] == w;
    SplitShift(line, |p| + 1, x, 0, w, []);
  }
}
