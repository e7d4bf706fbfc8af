/** The words the argument splitter reads, piece by piece: plain characters, escapes in double and
    in single quotes, and the quoting errors. */
module SdsQuotes {
  import opened ByteStrings
  import opened Sds

  /** A character, a backslash and a character, or `\x` and two hexadecimal digits. */
  datatype Piece = Plain(c: byte) | Escaped(c: byte) | Hex(high: byte, low: byte)

  predicate HexChar(c: byte) {
    48 <= c <= 57 || 97 <= c <= 102 || 65 <= c <= 70
  }

  function HexNumber(c: byte): (v: nat)
    ensures v < 16
  {
    if 48 <= c <= 57 then c - 48 else if 97 <= c <= 102 then c - 87 else if 65 <= c <= 70 then c - 55 else 0
  }

  // ------------------------------------------------------------------------------
  // Double quotes
  // ------------------------------------------------------------------------------

  predicate InDouble(p: Piece) {
    match p
    case Plain(c) => c != 34 && c != 92
    case Escaped(c) => c != 120
    case Hex(h, l) => HexChar(h) && HexChar(l)
  }

  function Written(p: Piece): bytes {
    match p
    case Plain(c) => [c]
    case Escaped(c) => [92, c]
    case Hex(h, l) => [92, 120, h, l]
  }

  /** What a piece stands for: `\n`, `\r`, `\t`, `\b` and `\a` for a control character, any other
      escaped character for itself. */
  function Meant(p: Piece): byte {
    match p
    case Plain(c) => c
    case Escaped(c) =>
      if c == 110 then 10 else if c == 114 then 13 else if c == 116 then 9 else if c == 98 then 8
      else if c == 97 then 7 else c
    case Hex(h, l) => 16 * HexNumber(h) + HexNumber(l)
  }

  function WrittenAll(ps: seq<Piece>): bytes {
    if |ps| == 0 then [] else Written(ps[0]) + WrittenAll(ps[1..])
  }

  function MeantAll(ps: seq<Piece>): (r: bytes)
    ensures |r| == |ps| && forall i :: 0 <= i < |r| ==> r[i] == Meant(ps[i])
  {
    seq(|ps|, i requires 0 <= i < |ps| => Meant(ps[i]))
  }

  predicate AllInDouble(ps: seq<Piece>) {
    forall i :: 0 <= i < |ps| ==> InDouble(ps[i])
  }

  lemma AtEach(s: bytes, i: nat, e: bytes)
    requires At(s, i, e)
    ensures forall k :: 0 <= k < |e| ==> s[i + k] == e[k]
  {
    forall k | 0 <= k < |e| ensures s[i + k] == e[k] {
      assert s[i..i + |e|][k] == e[k];
    }
  }

  lemma ReadPiece(s: bytes, i: nat, p: Piece, cur: bytes)
    requires InDouble(p) && At(s, i, Written(p))
    ensures ReadToken(s, i, Double, cur) == ReadToken(s, i + |Written(p)|, Double, cur + [Meant(p)])
  {
    AtEach(s, i, Written(p));
    assert s[i] == Written(p)[0];
    if !p.Plain? {
      assert s[i + 1] == Written(p)[1];
    }
    if p.Hex? {
      assert s[i + 2] == p.high && s[i + 3] == p.low;
    }
  }

  lemma {:induction false} ReadPieces(s: bytes, i: nat, ps: seq<Piece>, cur: bytes)
    requires AllInDouble(ps) && At(s, i, WrittenAll(ps))
    ensures i + |WrittenAll(ps)| <= |s|
    ensures ReadToken(s, i, Double, cur) == ReadToken(s, i + |WrittenAll(ps)|, Double, cur + MeantAll(ps))
    decreases |ps|
  {
    hide ReadToken, At, Written, Meant, InDouble;
    AtLength(s, i, WrittenAll(ps));
    if |ps| == 0 {
      assert cur + MeantAll(ps) == cur;
    } else {
      AtSplit(s, i, Written(ps[0]), WrittenAll(ps[1..]));
      AtLength(s, i, Written(ps[0]));
      ReadPiece(s, i, ps[0], cur);
      ReadPieces(s, i + |Written(ps[0])|, ps[1..], cur + [Meant(ps[0])]);
      assert cur + [Meant(ps[0])] + MeantAll(ps[1..]) == cur + MeantAll(ps);
    }
  }

  /** A word with a part in double quotes.  The quote has to be closed, and to be followed by a
      blank or by nothing. */
  lemma DoubleQuoted(s: bytes, i: nat, front: bytes, ps: seq<Piece>)
    requires AllInDouble(ps) && forall k :: 0 <= k < |front| ==> PlainChar(front[k])
    requires At(s, i, front + [34] + WrittenAll(ps))
    ensures var e := i + |front| + 1 + |WrittenAll(ps)|;
            && e <= |s|
            && (e == |s| ==> ReadToken(s, i, Bare, []) == Bad)
            && (e < |s| && s[e] == 34 ==>
                  ReadToken(s, i, Bare, []) ==
                  if e + 1 == |s| || s[e + 1] == 32 || 9 <= s[e + 1] <= 13 then Token(front + MeantAll(ps), e + 1)
                  else Bad)
  {
    hide ReadToken, At, WrittenAll, MeantAll, PlainChar;
    AtSplit(s, i, front + [34], WrittenAll(ps));
    AtSplit(s, i, front, [34]);
    AtOne(s, i + |front|, 34);
    ReadBare(s, i, front, []);
    assert [] + front == front;
    TurnDouble(s, i + |front|, front);
    ReadPieces(s, i + |front| + 1, ps, front);
    EndDouble(s, i + |front| + 1 + |WrittenAll(ps)|, front + MeantAll(ps));
  }

  lemma TurnDouble(s: bytes, i: nat, cur: bytes)
    requires At(s, i, [34])
    ensures i < |s| && ReadToken(s, i, Bare, cur) == ReadToken(s, i + 1, Double, cur)
  {
    AtOne(s, i, 34);
  }

  lemma EndDouble(s: bytes, e: nat, cur: bytes)
    requires e <= |s|
    ensures e == |s| ==> ReadToken(s, e, Double, cur) == Bad
    ensures e < |s| && s[e] == 34 ==>
              ReadToken(s, e, Double, cur) ==
              if e + 1 == |s| || s[e + 1] == 32 || 9 <= s[e + 1] <= 13 then Token(cur, e + 1) else Bad
  {}

  // ------------------------------------------------------------------------------
  // Single quotes
  // ------------------------------------------------------------------------------

  /** In single quotes only the quote itself can be escaped. */
  function InSingle(text: bytes): bytes {
    if |text| == 0 then []
    else (if text[0] == 39 then [92, 39] else [text[0]]) + InSingle(text[1..])
  }

  lemma {:induction false} ReadSingles(s: bytes, i: nat, text: bytes, cur: bytes)
    requires 92 !in text && At(s, i, InSingle(text))
    ensures i + |InSingle(text)| <= |s|
    ensures ReadToken(s, i, Mode.Single, cur) == ReadToken(s, i + |InSingle(text)|, Mode.Single, cur + text)
    decreases |text|
  {
    AtLength(s, i, InSingle(text));
    if |text| == 0 {
      assert cur + text == cur;
    } else {
      var head := if text[0] == 39 then [92, 39] else [text[0]];
      AtSplit(s, i, head, InSingle(text[1..]));
      AtEach(s, i, head);
      assert s[i] == head[0] && (text[0] == 39 ==> s[i + 1] == head[1]);
      assert text[0] in text;
      OneSingle(s, i, text[0], cur);
      hide ReadToken, At;
      ReadSingles(s, i + |head|, text[1..], cur + [text[0]]);
      assert cur + [text[0]] + text[1..] == cur + text;
    }
  }

  lemma OneSingle(s: bytes, i: nat, c: byte, cur: bytes)
    requires i < |s| && c != 92
    requires if c == 39 then i + 1 < |s| && s[i] == 92 && s[i + 1] == 39 else s[i] == c
    ensures ReadToken(s, i, Mode.Single, cur) ==
            ReadToken(s, if c == 39 then i + 2 else i + 1, Mode.Single, cur + [c])
  {}

  /** A word with a part in single quotes. */
  lemma SingleQuoted(s: bytes, i: nat, front: bytes, text: bytes)
    requires 92 !in text && forall k :: 0 <= k < |front| ==> PlainChar(front[k])
    requires At(s, i, front + [39] + InSingle(text))
    ensures var e := i + |front| + 1 + |InSingle(text)|;
            && e <= |s|
            && (e == |s| ==> ReadToken(s, i, Bare, []) == Bad)
            && (e < |s| && s[e] == 39 ==>
                  ReadToken(s, i, Bare, []) ==
                  if e + 1 == |s| || s[e + 1] == 32 || 9 <= s[e + 1] <= 13 then Token(front + text, e + 1) else Bad)
  {
    hide ReadToken, At, InSingle, PlainChar;
    AtSplit(s, i, front + [39], InSingle(text));
    AtSplit(s, i, front, [39]);
    AtOne(s, i + |front|, 39);
    ReadBare(s, i, front, []);
    assert [] + front == front;
    AtLength(s, i + |front|, [39]);
    OpenSingle(s, i + |front|, front);
    ReadSingles(s, i + |front| + 1, text, front);
    var e := i + |front| + 1 + |InSingle(text)|;
    if e == |s| {
      EndSingle(s, front + text);
    } else if s[e] == 39 {
      CloseSingle(s, e, front + text);
    }
  }

  // ------------------------------------------------------------------------------
  // Plain words, and what is printed
  // ------------------------------------------------------------------------------

  /** A plain word ends at the end of the line or at one of four blanks. */
  lemma PlainWordEnds(s: bytes, i: nat, text: bytes)
    requires At(s, i, text)
    requires forall k :: 0 <= k < |text| ==> text[k] !in {32, 10, 13, 9, 34, 39}
    ensures var e := i + |text|;
            && e <= |s|
            && (e == |s| ==> ReadToken(s, i, Bare, []) == Token(text, e))
            && (e < |s| && s[e] in {32, 10, 13, 9} ==> ReadToken(s, i, Bare, []) == Token(text, e + 1))
  {
    AtLength(s, i, text);
    ReadBare(s, i, text, []);
    assert [] + text == text;
  }

  /** How a byte is printed in quotes. */
  lemma EscapeFormat(c: byte)
    ensures Escape(c) ==
            if c == 34 then [92, 34] else if c == 92 then [92, 92]
            else if c == 10 then [92, 110] else if c == 13 then [92, 114] else if c == 9 then [92, 116]
            else if c == 7 then [92, 97] else if c == 8 then [92, 98]
            else if 32 <= c <= 126 then [c]
            else
              [92, 120, if c < 160 then 48 + c / 16 else 87 + c / 16, if c % 16 < 10 then 48 + c % 16 else 87 + c % 16]
  {}

  /** A string is printed in quotes exactly if it holds a byte that is not printable, a blank, a
      double quote or a backslash. */
  lemma PrintedQuoted(text: bytes)
    ensures Printed(text) ==
            if exists i :: 0 <= i < |text| && (text[i] <= 32 || text[i] >= 127 || text[i] in {34, 92})
            then [34] + EscapeAll(text) + [34] else text
  {}
}
