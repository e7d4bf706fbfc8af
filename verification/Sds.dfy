/** The quoting of the sds string library: `sdscatrepr`, `sdsneedsrepr` and the argument
    splitter `sdssplitargs` that reads quoted and unquoted tokens back. */
module Sds {
  import opened ByteStrings

  const SPACE: byte := 32
  const DQUOTE: byte := 34
  const SQUOTE: byte := 39
  const BACKSLASH: byte := 92
  const LETTER_X: byte := 120

  /** `isprint` in the C locale. */
  predicate IsPrint(c: byte) {
    32 <= c < 127
  }

  function HexDigit(d: nat): byte
    requires d < 16
  {
    if d < 10 then ZERO + d else 97 + (d - 10)
  }

  predicate IsHex(c: byte) {
    IsDigit(c) || 97 <= c <= 102 || 65 <= c <= 70
  }

  function HexValue(c: byte): (v: nat)
    ensures v < 16
  {
    if IsDigit(c) then c - ZERO else if 97 <= c <= 102 then c - 97 + 10 else if 65 <= c <= 70 then c - 65 + 10 else 0
  }

  // The characters with a letter escape: \n \r \t \a \b.

  function LetterOf(c: byte): byte {
    if c == 10 then 110 else if c == 13 then 114 else if c == 9 then 116 else if c == 7 then 97 else 98
  }

  function FromLetter(c: byte): byte {
    if c == 110 then 10 else if c == 114 then 13 else if c == 116 then 9
    else if c == 98 then 8 else if c == 97 then 7 else c
  }

  predicate HasLetter(c: byte) {
    c == 10 || c == 13 || c == 9 || c == 7 || c == 8
  }

  /** One character inside the double quotes of `sdscatrepr`. */
  function Escape(c: byte): bytes {
    if c == BACKSLASH || c == DQUOTE then [BACKSLASH, c]
    else if HasLetter(c) then [BACKSLASH, LetterOf(c)]
    else if IsPrint(c) then [c]
    else [BACKSLASH, LETTER_X, HexDigit(c / 16), HexDigit(c % 16)]
  }

  function EscapeAll(s: bytes): bytes {
    if |s| == 0 then [] else Escape(s[0]) + EscapeAll(s[1..])
  }

  function Repr(s: bytes): bytes {
    [DQUOTE] + EscapeAll(s) + [DQUOTE]
  }

  predicate NeedsRepr(s: bytes) {
    exists i :: 0 <= i < |s| && Special(s[i])
  }

  predicate Special(c: byte) {
    c == BACKSLASH || c == DQUOTE || HasLetter(c) || !IsPrint(c) || IsSpace(c)
  }

  // ------------------------------------------------------------------------------
  // Splitting
  // ------------------------------------------------------------------------------

  datatype Mode = Bare | Double | Single

  /** One token and where it ends, or a quoting error. */
  datatype Token = Token(text: bytes, next: nat) | Bad

  /** The inner loop of `sdssplitargs` from position `i`, with `cur` read so far.
      The line is a C string: it holds no zero byte, and its end reads as zero. */
  function ReadToken(s: bytes, i: nat, mode: Mode, cur: bytes): (t: Token)
    requires i <= |s|
    ensures t.Token? ==> i <= t.next <= |s|
    decreases |s| - i
  {
    match mode
    case Bare =>
      if i == |s| then Token(cur, i)
      else if s[i] == SPACE || s[i] == LF || s[i] == CR || s[i] == 9 then Token(cur, i + 1)
      else if s[i] == DQUOTE then ReadToken(s, i + 1, Double, cur)
      else if s[i] == SQUOTE then ReadToken(s, i + 1, Single, cur)
      else ReadToken(s, i + 1, Bare, cur + [s[i]])
    case Double =>
      if i + 3 < |s| && s[i] == BACKSLASH && s[i + 1] == LETTER_X && IsHex(s[i + 2]) && IsHex(s[i + 3]) then
        ReadToken(s, i + 4, Double, cur + [HexValue(s[i + 2]) * 16 + HexValue(s[i + 3])])
      else if i + 1 < |s| && s[i] == BACKSLASH then
        ReadToken(s, i + 2, Double, cur + [FromLetter(s[i + 1])])
      else if i < |s| && s[i] == DQUOTE then
        if i + 1 < |s| && !IsSpace(s[i + 1]) then Bad else Token(cur, i + 1)
      else if i == |s| then Bad
      else ReadToken(s, i + 1, Double, cur + [s[i]])
    case Single =>
      if i + 1 < |s| && s[i] == BACKSLASH && s[i + 1] == SQUOTE then
        ReadToken(s, i + 2, Single, cur + [SQUOTE])
      else if i < |s| && s[i] == SQUOTE then
        if i + 1 < |s| && !IsSpace(s[i + 1]) then Bad else Token(cur, i + 1)
      else if i == |s| then Bad
      else ReadToken(s, i + 1, Single, cur + [s[i]])
  }

  function SkipBlanks(s: bytes, i: nat): (j: nat)
    requires i <= |s|
    ensures i <= j <= |s| && (j < |s| ==> !IsSpace(s[j]))
    decreases |s| - i
  {
    if i < |s| && IsSpace(s[i]) then SkipBlanks(s, i + 1) else i
  }

  datatype Split = Args(argv: seq<bytes>) | Unbalanced

  function SplitFrom(s: bytes, i: nat, argv: seq<bytes>): Split
    requires i <= |s|
    decreases |s| - i
  {
    var j := SkipBlanks(s, i);
    if j == |s| then Args(argv)
    else
      var t := ReadToken(s, j, Bare, []);
      TokenMoves(s, j);
      if t.Bad? then Unbalanced else SplitFrom(s, t.next, argv + [t.text])
  }

  lemma TokenMoves(s: bytes, i: nat)
    requires i < |s|
    ensures ReadToken(s, i, Bare, []).Token? ==> ReadToken(s, i, Bare, []).next > i
  {}

  /** `sdssplitargs`. */
  method SplitArgs(line: bytes) returns (r: Split)
    ensures r == SplitFrom(line, 0, [])
  {
    var argv: seq<bytes> := [];
    var p: nat := 0;
    while true
      invariant p <= |line|
      invariant SplitFrom(line, p, argv) == SplitFrom(line, 0, [])
      decreases |line| - p
    {
      var j := SkipBlanks(line, p);
      if j == |line| {
        return Args(argv);
      }
      TokenMoves(line, j);
      var t := ReadToken(line, j, Bare, []);
      if t.Bad? {
        return Unbalanced;
      }
      argv, p := argv + [t.text], t.next;
    }
  }

  // ------------------------------------------------------------------------------
  // Tokens come back
  // ------------------------------------------------------------------------------

  /** `s` has `e` at position `i`. */
  predicate At(s: bytes, i: nat, e: bytes) {
    i + |e| <= |s| && s[i..i + |e|] == e
  }

  lemma ReadEscape(s: bytes, i: nat, c: byte, cur: bytes)
    requires At(s, i, Escape(c))
    ensures ReadToken(s, i, Double, cur) == ReadToken(s, i + |Escape(c)|, Double, cur + [c])
  {
    var e := Escape(c);
    forall k | 0 <= k < |e| ensures s[i + k] == e[k] {
      assert s[i..i + |e|][k] == e[k];
    }
    if c != BACKSLASH && c != DQUOTE && !HasLetter(c) && !IsPrint(c) {
      assert HexValue(HexDigit(c / 16)) == c / 16 && HexValue(HexDigit(c % 16)) == c % 16;
    }
  }

  lemma AtSplit(s: bytes, i: nat, a: bytes, b: bytes)
    requires At(s, i, a + b)
    ensures At(s, i, a) && At(s, i + |a|, b)
  {
    var e := a + b;
    assert s[i..i + |a|] == s[i..i + |e|][..|a|] == e[..|a|] == a;
    assert s[i + |a|..i + |a| + |b|] == s[i..i + |e|][|a|..] == e[|a|..] == b;
  }

  lemma AtOne(s: bytes, i: nat, c: byte)
    requires At(s, i, [c])
    ensures s[i] == c
  {
    assert s[i..i + 1][0] == c;
  }

  lemma {:induction false} ReadEscaped(s: bytes, i: nat, text: bytes, cur: bytes)
    requires At(s, i, EscapeAll(text) + [DQUOTE])
    requires i + |EscapeAll(text)| + 1 < |s| ==> IsSpace(s[i + |EscapeAll(text)| + 1])
    ensures ReadToken(s, i, Double, cur) == Token(cur + text, i + |EscapeAll(text)| + 1)
    decreases |text|
  {
    hide ReadToken, At, Escape, IsSpace;
    AtLength(s, i, EscapeAll(text) + [DQUOTE]);
    if |text| == 0 {
      assert EscapeAll(text) + [DQUOTE] == [DQUOTE];
      AtOne(s, i, DQUOTE);
      assert cur + text == cur;
      CloseQuote(s, i, cur);
    } else {
      var head, tail := Escape(text[0]), EscapeAll(text[1..]) + [DQUOTE];
      assert EscapeAll(text) + [DQUOTE] == head + tail;
      AtSplit(s, i, head, tail);
      ReadEscape(s, i, text[0], cur);
      ReadEscaped(s, i + |head|, text[1..], cur + [text[0]]);
      assert cur + [text[0]] + text[1..] == cur + text;
    }
  }

  lemma AtLength(s: bytes, i: nat, e: bytes)
    requires At(s, i, e)
    ensures i + |e| <= |s|
  {}

  lemma CloseQuote(s: bytes, i: nat, cur: bytes)
    requires i < |s| && s[i] == DQUOTE && (i + 1 < |s| ==> IsSpace(s[i + 1]))
    ensures ReadToken(s, i, Double, cur) == Token(cur, i + 1)
  {}

  /** A quoted string is read back as one token, whatever bytes it holds. */
  lemma ReadRepr(s: bytes, i: nat, text: bytes)
    requires At(s, i, Repr(text)) && (i + |Repr(text)| < |s| ==> IsSpace(s[i + |Repr(text)|]))
    ensures ReadToken(s, i, Bare, []) == Token(text, i + |Repr(text)|)
  {
    hide At, EscapeAll;
    var e := EscapeAll(text) + [DQUOTE];
    assert Repr(text) == [DQUOTE] + e;
    AtSplit(s, i, [DQUOTE], e);
    AtLength(s, i, Repr(text));
    AtOne(s, i, DQUOTE);
    OpenQuote(s, i);
    hide ReadToken;
    ReadEscaped(s, i + 1, text, []);
    assert [] + text == text;
  }

  lemma OpenQuote(s: bytes, i: nat)
    requires i < |s| && s[i] == DQUOTE
    ensures ReadToken(s, i, Bare, []) == ReadToken(s, i + 1, Double, [])
  {}

  /** A character that ends nothing and opens nothing. */
  predicate PlainChar(c: byte) {
    c != SPACE && c != LF && c != CR && c != 9 && c != DQUOTE && c != SQUOTE
  }

  /** An unquoted token is read back if it has no quotes in it. */
  lemma {:induction false} ReadBare(s: bytes, i: nat, text: bytes, cur: bytes)
    requires At(s, i, text) && forall k :: 0 <= k < |text| ==> PlainChar(text[k])
    ensures ReadToken(s, i, Bare, cur) == ReadToken(s, i + |text|, Bare, cur + text)
    decreases |text|
  {
    if |text| == 0 {
      assert cur + text == cur;
    } else {
      assert s[i] == s[i..i + |text|][0];
      assert PlainChar(text[0]);
      assert s[i + 1..i + |text|] == s[i..i + |text|][1..];
      ReadBare(s, i + 1, text[1..], cur + [text[0]]);
      assert cur + [text[0]] + text[1..] == cur + text;
    }
  }

  /** How `aofInfoFormat` and friends print one token. */
  function Printed(tok: bytes): bytes {
    if NeedsRepr(tok) then Repr(tok) else tok
  }

  function Join(toks: seq<bytes>): bytes {
    if |toks| == 0 then [] else if |toks| == 1 then Printed(toks[0]) else Printed(toks[0]) + [SPACE] + Join(toks[1..])
  }

  /** Tokens the splitter reads back: not empty, and quoted if they hold a single quote. */
  predicate Readable(tok: bytes) {
    |tok| > 0 && (NeedsRepr(tok) || SQUOTE !in tok)
  }

  lemma ReadPrinted(s: bytes, i: nat, tok: bytes)
    requires Readable(tok) && At(s, i, Printed(tok))
    requires i + |Printed(tok)| < |s| ==> s[i + |Printed(tok)|] == SPACE
    ensures |Printed(tok)| > 0 && SkipBlanks(s, i) == i
    ensures var t := ReadToken(s, i, Bare, []);
            t.Token? && t.text == tok && (t.next == i + |Printed(tok)| || t.next == i + |Printed(tok)| + 1)
  {
    hide At, EscapeAll;
    AtLength(s, i, Printed(tok));
    AtSplit(s, i, [Printed(tok)[0]], Printed(tok)[1..]) by {
      assert [Printed(tok)[0]] + Printed(tok)[1..] == Printed(tok);
    }
    AtOne(s, i, Printed(tok)[0]);
    if NeedsRepr(tok) {
      hide ReadToken;
      ReadRepr(s, i, tok);
    } else {
      forall k | 0 <= k < |tok| ensures PlainChar(tok[k]) {
        assert tok[k] in tok;
      }
      assert PlainChar(tok[0]);
      ReadBare(s, i, tok, []);
      assert [] + tok == tok;
    }
  }

  /** A line of printed tokens splits into the tokens. */
  lemma {:induction false} SplitJoin(s: bytes, i: nat, toks: seq<bytes>, argv: seq<bytes>)
    requires i <= |s| && At(s, i, Join(toks)) && i + |Join(toks)| == |s|
    requires forall k :: 0 <= k < |toks| ==> Readable(toks[k])
    ensures SplitFrom(s, i, argv) == Args(argv + toks)
    decreases |toks|
  {
    hide ReadToken, At, Printed, Readable, SplitFrom;
    if |toks| == 0 {
      assert argv + toks == argv;
      SplitEnd(s, argv);
    } else if |toks| == 1 {
      SplitLast(s, i, toks[0], argv);
      assert toks == [toks[0]];
    } else {
      SplitNext(s, i, toks[0], Join(toks[1..]), argv);
      SplitJoin(s, i + |Printed(toks[0])| + 1, toks[1..], argv + [toks[0]]);
      assert argv + [toks[0]] + toks[1..] == argv + toks;
    }
  }

  /** The last token of a line. */
  lemma SplitLast(s: bytes, i: nat, tok: bytes, argv: seq<bytes>)
    requires Readable(tok) && At(s, i, Printed(tok)) && i + |Printed(tok)| == |s|
    ensures SplitFrom(s, i, argv) == Args(argv + [tok])
  {
    hide ReadToken, At, Printed, Readable;
    ReadPrinted(s, i, tok);
    SplitEnd(s, argv + [tok]);
  }

  /** A token with more of the line behind it. */
  lemma SplitNext(s: bytes, i: nat, tok: bytes, rest: bytes, argv: seq<bytes>)
    requires Readable(tok) && At(s, i, Printed(tok) + [SPACE] + rest)
    ensures var n := i + |Printed(tok)| + 1;
            n <= |s| && At(s, n, rest) && SplitFrom(s, i, argv) == SplitFrom(s, n, argv + [tok])
  {
    hide ReadToken, At, Printed, Readable;
    var p := Printed(tok);
    AtSplit(s, i, p + [SPACE], rest);
    AtSplit(s, i, p, [SPACE]);
    AtOne(s, i + |p|, SPACE);
    ReadPrinted(s, i, tok);
    SkipOne(s, i + |p|, argv + [tok]);
  }

  lemma SplitEnd(s: bytes, argv: seq<bytes>)
    ensures SplitFrom(s, |s|, argv) == Args(argv)
  {}

  lemma SkipOne(s: bytes, i: nat, argv: seq<bytes>)
    requires i < |s| && s[i] == SPACE
    ensures SplitFrom(s, i, argv) == SplitFrom(s, i + 1, argv)
  {
    hide ReadToken;
  }

  // ------------------------------------------------------------------------------
  // A single quote that is not quoted is not read back
  // ------------------------------------------------------------------------------

  lemma {:induction false} ReadSingle(s: bytes, i: nat, j: nat, cur: bytes)
    requires i <= j <= |s| && forall k :: i <= k < j ==> s[k] != SQUOTE && s[k] != BACKSLASH
    ensures ReadToken(s, i, Single, cur) == ReadToken(s, j, Single, cur + s[i..j])
    decreases j - i
  {
    if i == j {
      assert cur + s[i..j] == cur;
    } else {
      ReadSingle(s, i + 1, j, cur + [s[i]]);
      assert cur + [s[i]] + s[i + 1..j] == cur + s[i..j];
    }
  }

  lemma OpenSingle(s: bytes, i: nat, cur: bytes)
    requires i < |s| && s[i] == SQUOTE
    ensures ReadToken(s, i, Bare, cur) == ReadToken(s, i + 1, Single, cur)
  {}

  lemma EndSingle(s: bytes, cur: bytes)
    ensures ReadToken(s, |s|, Single, cur) == Bad
  {}

  lemma CloseSingle(s: bytes, i: nat, cur: bytes)
    requires i < |s| && s[i] == SQUOTE
    ensures ReadToken(s, i, Single, cur) == if i + 1 < |s| && !IsSpace(s[i + 1]) then Bad else Token(cur, i + 1)
  {}

  function FirstQuote(s: bytes, i: nat): (p: nat)
    requires i <= |s|
    ensures i <= p <= |s| && (p < |s| ==> s[p] == SQUOTE) && forall k :: i <= k < p ==> s[k] != SQUOTE
    decreases |s| - i
  {
    if i == |s| || s[i] == SQUOTE then i else FirstQuote(s, i + 1)
  }

  lemma ToFirstQuote(s: bytes, i: nat, tok: bytes, p: nat)
    requires At(s, i, tok) && !NeedsRepr(tok)
    requires p < |tok| && tok[p] == SQUOTE && forall k :: 0 <= k < p ==> tok[k] != SQUOTE
    ensures ReadToken(s, i, Bare, []) == ReadToken(s, i + p + 1, Single, tok[..p])
  {
    hide ReadToken;
    assert s[i + p] == s[i..i + |tok|][p] == tok[p];
    assert s[i..i + p] == s[i..i + |tok|][..p] == tok[..p];
    forall k | 0 <= k < p ensures PlainChar(tok[..p][k]) {
      assert !Special(tok[k]);
    }
    ReadBare(s, i, tok[..p], []);
    assert [] + tok[..p] == tok[..p];
    OpenSingle(s, i + p, tok[..p]);
  }

  lemma ToSecondQuote(s: bytes, i: nat, j: nat, cur: bytes)
    requires i <= j <= |s| && forall k :: i <= k < j ==> s[k] != SQUOTE && s[k] != BACKSLASH
    requires j == |s| || s[j] == SQUOTE
    ensures var t := ReadToken(s, i, Single, cur);
            t == Bad || (t == Token(cur + s[i..j], j + 1) && j < |s| && (j + 1 < |s| ==> IsSpace(s[j + 1])))
  {
    hide ReadToken;
    ReadSingle(s, i, j, cur);
    if j == |s| {
      EndSingle(s, cur + s[i..j]);
    } else {
      CloseSingle(s, j, cur + s[i..j]);
    }
  }

  /** A token printed without quoting although it holds a single quote comes back wrong:
      either the quotes do not balance, or the token has lost them. */
  lemma RawQuoteLost(s: bytes, i: nat, tok: bytes)
    requires At(s, i, tok) && SQUOTE in tok && !NeedsRepr(tok)
    requires forall k :: i + |tok| <= k < |s| ==> s[k] != SQUOTE && s[k] != BACKSLASH
    ensures var t := ReadToken(s, i, Bare, []);
            t.Bad? || (|t.text| < |tok| && t.next == i + |tok|)
  {
    hide ReadToken, Special;
    forall k | 0 <= k < |tok| ensures s[i + k] == tok[k] && tok[k] != BACKSLASH && !IsSpace(tok[k]) {
      assert s[i..i + |tok|][k] == tok[k];
      NotSpecial(tok[k]);
    }
    var p := FirstQuote(tok, 0);
    ToFirstQuote(s, i, tok, p);
    var q := FirstQuote(s, i + p + 1);
    forall k | i + p + 1 <= k < q ensures s[k] != BACKSLASH {
      if k < i + |tok| {
        assert s[i + (k - i)] == tok[k - i];
      }
    }
    ToSecondQuote(s, i + p + 1, q, tok[..p]);
    if q + 1 < i + |tok| {
      assert s[i + (q + 1 - i)] == tok[q + 1 - i];
    }
  }

  lemma NotSpecial(c: byte)
    requires !Special(c)
    ensures c != BACKSLASH && !IsSpace(c)
  {}
}
