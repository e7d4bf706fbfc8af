/** The append-only-file command format: the writer (`catAppendOnlyGenericCommand`),
    the reader (the command loop of `loadSingleAppendOnlyFile`), and what the reader
    does with every prefix of what the writer produced. */
module AofCodec {
  import opened ByteStrings

  type Command = seq<bytes>

  const HASH: byte := 35
  const DOLLAR: byte := 36
  const STAR: byte := 42

  // ------------------------------------------------------------------------------
  // Decimal numbers
  // ------------------------------------------------------------------------------

  /** `ll2string` on a non-negative number. */
  function Decimal(n: nat): (s: bytes)
    ensures |s| >= 1
    ensures forall i :: 0 <= i < |s| ==> IsDigit(s[i])
  {
    if n < 10 then [ZERO + n] else Decimal(n / 10) + [ZERO + n % 10]
  }

  function SkipSpaces(s: bytes): bytes {
    if |s| > 0 && IsSpace(s[0]) then SkipSpaces(s[1..]) else s
  }

  /** The value of the leading digits of `s`, on top of `acc`. */
  function Digits(s: bytes, acc: nat): nat
    decreases |s|
  {
    if |s| > 0 && IsDigit(s[0]) then Digits(s[1..], acc * 10 + (s[0] - ZERO)) else acc
  }

  const LONG_MAX := 0x7fff_ffff_ffff_ffff
  const LONG_MIN := -0x8000_0000_0000_0000

  /** `strtol` in base 10: optional spaces, an optional sign, digits; saturating. */
  function Strtol(s: bytes): int {
    var t := SkipSpaces(s);
    var v := if |t| > 0 && t[0] == 45 then 0 - Digits(t[1..], 0)
             else if |t| > 0 && t[0] == 43 then Digits(t[1..], 0)
             else Digits(t, 0);
    if v > LONG_MAX then LONG_MAX else if v < LONG_MIN then LONG_MIN else v
  }

  /** `atoi`: `strtol` cut down to a 32-bit int. */
  function Atoi(s: bytes): int {
    var low := Strtol(s) % 0x1_0000_0000;
    if low >= 0x8000_0000 then low - 0x1_0000_0000 else low
  }

  lemma AtoiSmall(s: bytes)
    requires 0 <= Strtol(s) < 0x8000_0000
    ensures Atoi(s) == Strtol(s)
  {
    hide Strtol;
  }

  lemma {:induction false} DigitsAppend(a: bytes, b: bytes, acc: nat)
    requires forall i :: 0 <= i < |a| ==> IsDigit(a[i])
    ensures Digits(a + b, acc) == Digits(b, Digits(a, acc))
    decreases |a|
  {
    if |a| == 0 {
      assert a + b == b;
    } else {
      assert (a + b)[1..] == a[1..] + b;
      DigitsAppend(a[1..], b, acc * 10 + (a[0] - ZERO));
    }
  }

  lemma {:induction false} DigitsOfDecimal(n: nat)
    ensures Digits(Decimal(n), 0) == n
  {
    if n >= 10 {
      DigitsOfDecimal(n / 10);
      DigitsAppend(Decimal(n / 10), [ZERO + n % 10], 0);
      assert Digits([ZERO + n % 10], n / 10) == Digits([], n / 10 * 10 + n % 10);
    } else {
      assert Digits([ZERO + n], 0) == Digits([], n);
    }
  }

  /** A number cut short reads as a smaller number, and as at least 1 if `n` was. */
  lemma {:induction false} DigitsOfCut(n: nat, k: nat)
    requires k <= |Decimal(n)|
    ensures Digits(Decimal(n)[..k], 0) <= n
    ensures 1 <= k && 1 <= n ==> 1 <= Digits(Decimal(n)[..k], 0)
  {
    if k == |Decimal(n)| {
      assert Decimal(n)[..k] == Decimal(n);
      DigitsOfDecimal(n);
    } else if n >= 10 {
      assert Decimal(n)[..k] == Decimal(n / 10)[..k];
      DigitsOfCut(n / 10, k);
    }
  }

  function Pow10(k: nat): nat {
    if k == 0 then 1 else 10 * Pow10(k - 1)
  }

  lemma {:induction false} DecimalLength(n: nat, k: nat)
    requires 1 <= k && n < Pow10(k)
    ensures |Decimal(n)| <= k
  {
    if n >= 10 {
      DecimalLength(n / 10, k - 1);
    }
  }

  lemma DecimalFits(n: nat)
    requires n <= LONG_MAX
    ensures |Decimal(n)| <= 19
  {
    assert Pow10(5) == 100_000;
    assert Pow10(10) == 10_000_000_000;
    assert Pow10(15) == 1_000_000_000_000_000;
    assert Pow10(19) == 10_000_000_000_000_000_000;
    DecimalLength(n, 19);
  }

  lemma NumberReads(n: nat, k: nat, rest: bytes)
    requires n <= LONG_MAX && k <= |Decimal(n)|
    requires |rest| > 0 ==> !IsDigit(rest[0])
    requires k == 0 ==> rest == []
    ensures Strtol(Decimal(n)[..k] + rest) == Digits(Decimal(n)[..k], 0) <= n
  {
    var d := Decimal(n)[..k];
    DigitsOfCut(n, k);
    DigitsAppend(d, rest, 0);
    if k > 0 {
      assert (d + rest)[0] == d[0];
    } else {
      assert d + rest == [];
    }
  }

  // ------------------------------------------------------------------------------
  // The writer
  // ------------------------------------------------------------------------------

  function Bulk(a: bytes): bytes {
    [DOLLAR] + Decimal(|a|) + [CR, LF] + a + [CR, LF]
  }

  function Bulks(c: Command): bytes {
    if |c| == 0 then [] else Bulks(c[..|c| - 1]) + Bulk(c[|c| - 1])
  }

  function Header(n: nat): bytes {
    [STAR] + Decimal(n) + [CR, LF]
  }

  function Encode(c: Command): bytes {
    Header(|c|) + Bulks(c)
  }

  function EncodeAll(cmds: seq<Command>): bytes {
    if |cmds| == 0 then [] else EncodeAll(cmds[..|cmds| - 1]) + Encode(cmds[|cmds| - 1])
  }

  lemma {:induction false} EncodeAllAppend(a: seq<Command>, b: seq<Command>)
    ensures EncodeAll(a + b) == EncodeAll(a) + EncodeAll(b)
    decreases |b|
  {
    hide Encode;
    if |b| == 0 {
      assert a + b == a;
    } else {
      assert (a + b)[..|a + b| - 1] == a + b[..|b| - 1];
      EncodeAllAppend(a, b[..|b| - 1]);
    }
  }

  lemma EncodeNothing()
    ensures EncodeAll([]) == []
  {}

  /** `catAppendOnlyGenericCommand`. */
  method CatCommand(dst: bytes, c: Command) returns (r: bytes)
    ensures r == dst + Encode(c)
  {
    hide Decimal, Bulks;
    r := dst + ([STAR] + Decimal(|c|) + [CR, LF]);
    NoBulks(c);
    for j := 0 to |c|
      invariant r == dst + (Header(|c|) + Bulks(c[..j]))
    {
      ghost var before := r;
      r := r + ([DOLLAR] + Decimal(|c[j]|) + [CR, LF]);
      r := r + c[j];
      r := r + [CR, LF];
      assert r == before + Bulk(c[j]);
      BulksNext(c, j);
    }
    assert c[..|c|] == c;
  }

  lemma NoBulks(c: Command)
    ensures Bulks(c[..0]) == []
  {}

  // ------------------------------------------------------------------------------
  // The reader
  // ------------------------------------------------------------------------------

  /** `AOF_ANNOTATION_LINE_MAX_LEN`, the size of the line buffer. */
  const LINE_BUFFER := 1024

  /** What one `fgets` delivers: the text, where the file position ends up, and `feof`. */
  datatype Line = Line(text: bytes, next: nat, eof: bool)

  /** One past the first line feed of `data[i..stop]`, or `stop`. */
  function LineEnd(data: bytes, i: nat, stop: nat): (e: nat)
    requires i <= stop <= |data|
    ensures i <= e <= stop && (i < stop ==> i < e)
    decreases stop - i
  {
    if i == stop then stop
    else if data[i] == LF then i + 1
    else LineEnd(data, i + 1, stop)
  }

  /** `fgets` with a buffer of `size` bytes, one of which is for the terminating zero. */
  function FgetsSize(data: bytes, pos: nat, size: nat): (l: Line)
    requires pos < |data| && size >= 2
    ensures pos < l.next <= |data| && l.text == data[pos..l.next]
  {
    var stop := if pos + size - 1 <= |data| then pos + size - 1 else |data|;
    var e := LineEnd(data, pos, stop);
    Line(data[pos..e], e, data[e - 1] != LF && e - pos < size - 1)
  }

  function Fgets(data: bytes, pos: nat): (l: Line)
    requires pos < |data|
    ensures pos < l.next <= |data| && l.text == data[pos..l.next]
  {
    FgetsSize(data, pos, LINE_BUFFER)
  }

  /** The outcome of reading one item. `Short` is an end of file in the middle of a
      command, `Broken` a read error without end of file, `Malformed` a format error,
      `NoMemory` the request for a string of impossible length. */
  datatype Read = Done | Annotation(next: nat) | Got(cmd: Command, next: nat)
                | Short | Broken | Malformed | NoMemory

  /** The argument loop: `n` more bulk strings from `pos` on, after `argv`. */
  function ReadArgs(data: bytes, pos: nat, n: nat, argv: Command): (r: Read)
    requires pos <= |data|
    ensures r.Got? ==> pos <= r.next <= |data|
    ensures !r.Done? && !r.Annotation?
    decreases n
  {
    if n == 0 then Got(argv, pos)
    else if pos == |data| then Short
    else
      var line := Fgets(data, pos);
      if line.text[0] != DOLLAR then Malformed
      else
        var len := Strtol(line.text[1..]);
        var start := line.next;
        if len < 0 then NoMemory
        else if start + len > |data| then Short
        else if start + len + 2 > |data| then Short
        else ReadArgs(data, start + len + 2, n - 1, argv + [data[start..start + len]])
  }

  function ReadCommand(data: bytes, pos: nat): (r: Read)
    requires pos <= |data|
    ensures r.Got? ==> pos < r.next <= |data|
    ensures r.Annotation? ==> pos < r.next <= |data|
  {
    if pos == |data| then Done
    else
      var line := Fgets(data, pos);
      if line.text[0] == HASH then Annotation(line.next)
      else if line.text[0] != STAR then Malformed
      else if |line.text| == 1 || line.text[1] == 0 then (if line.eof then Short else Broken)
      else
        var argc := Atoi(line.text[1..]);
        if argc < 1 then Malformed else ReadArgs(data, line.next, argc, [])
  }

  /** Reading one command as the source does. */
  method NextCommand(data: bytes, pos: nat) returns (r: Read)
    requires pos <= |data|
    ensures r == ReadCommand(data, pos)
  {
    hide Strtol, Atoi, Fgets;
    if pos == |data| {
      return Done;
    }
    var line := Fgets(data, pos);
    if line.text[0] == HASH {
      return Annotation(line.next);
    }
    if line.text[0] != STAR {
      return Malformed;
    }
    if |line.text| == 1 || line.text[1] == 0 {
      return if line.eof then Short else Broken;
    }
    var argc := Atoi(line.text[1..]);
    if argc < 1 {
      return Malformed;
    }
    r := NextArgs(data, line.next, argc);
  }

  /** The loop over the arguments of one command. */
  method NextArgs(data: bytes, pos: nat, argc: nat) returns (r: Read)
    requires pos <= |data|
    ensures r == ReadArgs(data, pos, argc, [])
  {
    hide Strtol, Fgets;
    var argv: Command := [];
    var at: nat := pos;
    for j := 0 to argc
      invariant at <= |data|
      invariant ReadArgs(data, at, argc - j, argv) == ReadArgs(data, pos, argc, [])
    {
      if at == |data| {
        return Short;
      }
      var line := Fgets(data, at);
      if line.text[0] != DOLLAR {
        return Malformed;
      }
      var len := Strtol(line.text[1..]);
      if len < 0 {
        return NoMemory;
      }
      if len > 0 && line.next + len > |data| {
        return Short;
      }
      argv := argv + [data[line.next..line.next + len]];
      if line.next + len + 2 > |data| {
        return Short;
      }
      at := line.next + len + 2;
    }
    r := Got(argv, at);
  }

  // ------------------------------------------------------------------------------
  // Reading back what was written, whole or cut short
  // ------------------------------------------------------------------------------

  /** What the C types of the writer allow: `int argc`, `size_t` lengths below 2^63. */
  predicate Writable(c: Command) {
    1 <= |c| < 0x8000_0000 && forall i :: 0 <= i < |c| ==> |c[i]| <= LONG_MAX
  }

  /** `data` continues at `pos` with `e`, or with as much of it as fits. */
  predicate Continues(data: bytes, pos: nat, e: bytes) {
    pos <= |data| && forall i :: 0 <= i < |e| && pos + i < |data| ==> data[pos + i] == e[i]
  }

  lemma {:induction false} LineEndAt(data: bytes, i: nat, stop: nat, e: nat)
    requires i < e <= stop <= |data|
    requires forall j :: i <= j < e - 1 ==> data[j] != LF
    requires data[e - 1] == LF || e == stop
    ensures LineEnd(data, i, stop) == e
    decreases stop - i
  {
    if data[i] != LF && i + 1 < stop {
      LineEndAt(data, i + 1, stop, e);
    }
  }

  /** A marker byte, a number and CR LF are read as one line if they are all there. */
  lemma ReadNumberLine(data: bytes, pos: nat, marker: byte, n: nat)
    requires n <= LONG_MAX && marker != LF
    requires Continues(data, pos, [marker] + Decimal(n) + [CR, LF])
    requires pos + |Decimal(n)| + 3 <= |data|
    ensures var l := Fgets(data, pos);
            l.text == [marker] + Decimal(n) + [CR, LF] && l.next == pos + |Decimal(n)| + 3
    ensures Strtol(Fgets(data, pos).text[1..]) == n
    ensures n < 0x8000_0000 ==> Atoi(Fgets(data, pos).text[1..]) == n
  {
    hide Strtol, Atoi;
    var d := Decimal(n);
    var e := [marker] + d + [CR, LF];
    DecimalFits(n);
    var stop := if pos + LINE_BUFFER - 1 <= |data| then pos + LINE_BUFFER - 1 else |data|;
    assert forall i :: 0 <= i < |e| ==> data[pos + i] == e[i];
    forall j | pos <= j < pos + |e| - 1 ensures data[j] != LF {
      assert data[j] == e[j - pos];
    }
    assert data[pos + |e| - 1] == e[|e| - 1];
    LineEndAt(data, pos, stop, pos + |e|);
    assert data[pos..pos + |e|] == e;
    assert e[1..] == d[..|d|] + [CR, LF];
    NumberReads(n, |d|, [CR, LF]);
    DigitsOfDecimal(n);
    assert d[..|d|] == d;
    if n < 0x8000_0000 {
      AtoiSmall(e[1..]);
    }
  }

  lemma CutLineText(data: bytes, pos: nat, e: bytes)
    requires Continues(data, pos, e) && 1 <= |data| - pos < |e| < LINE_BUFFER
    requires forall i :: 0 <= i < |e| - 1 ==> e[i] != LF
    ensures Fgets(data, pos) == Line(e[..|data| - pos], |data|, true)
  {
    forall j | pos <= j < |data| ensures data[j] == e[j - pos] && data[j] != LF {
      assert pos + (j - pos) < |data|;
    }
    LineEndAt(data, pos, |data|, |data|);
    assert data[pos..|data|] == e[..|data| - pos];
  }

  /** The same line cut by the end of the file: what is left of the number is read. */
  lemma ReadCutLine(data: bytes, pos: nat, marker: byte, n: nat)
    requires n <= LONG_MAX && marker != LF
    requires Continues(data, pos, [marker] + Decimal(n) + [CR, LF])
    requires pos < |data| < pos + |Decimal(n)| + 3
    ensures var l := Fgets(data, pos);
            l.next == |data| && l.eof && l.text[0] == marker && (|l.text| > 1 ==> n < 1 || l.text[1] != 0)
    ensures 0 <= Strtol(Fgets(data, pos).text[1..]) <= n
    ensures 1 <= n < 0x8000_0000 && |Fgets(data, pos).text| > 1 ==> 1 <= Atoi(Fgets(data, pos).text[1..])
  {
    hide Strtol, Atoi, Fgets;
    var d := Decimal(n);
    var e := [marker] + d + [CR, LF];
    var m := |data| - pos;
    DecimalFits(n);
    CutLineText(data, pos, e);
    var k := if m - 1 <= |d| then m - 1 else |d|;
    var rest: bytes := if m - 1 <= |d| then [] else [CR];
    assert e[..m][1..] == d[..k] + rest;
    NumberReads(n, k, rest);
    DigitsOfCut(n, k);
    if n < 0x8000_0000 {
      AtoiSmall(d[..k] + rest);
    }
  }

  lemma ContinuesPart(data: bytes, pos: nat, a: bytes, b: bytes, c: bytes)
    requires Continues(data, pos, a + b + c) && pos + |a| <= |data|
    ensures Continues(data, pos + |a|, b)
  {
    forall i | 0 <= i < |b| && pos + |a| + i < |data| ensures data[pos + |a| + i] == b[i] {
      assert (a + b + c)[|a| + i] == b[i];
      assert pos + (|a| + i) < |data|;
    }
  }

  lemma {:induction false} BulksAppend(a: Command, b: Command)
    ensures Bulks(a + b) == Bulks(a) + Bulks(b)
    decreases |b|
  {
    hide Bulk;
    if |b| == 0 {
      assert a + b == a;
    } else {
      assert (a + b)[..|a + b| - 1] == a + b[..|b| - 1];
      BulksAppend(a, b[..|b| - 1]);
    }
  }

  lemma BulksNext(c: Command, j: nat)
    requires j < |c|
    ensures Bulks(c[..j + 1]) == Bulks(c[..j]) + Bulk(c[j])
  {
    hide Bulk;
    assert c[..j + 1][..j] == c[..j];
  }

  lemma BulksSplit(c: Command, j: nat)
    requires j < |c|
    ensures Bulks(c) == Bulks(c[..j]) + Bulk(c[j]) + Bulks(c[j + 1..])
  {
    hide Bulk, Bulks;
    BulksNext(c, j);
    BulksAppend(c[..j + 1], c[j + 1..]);
    assert c[..j + 1] + c[j + 1..] == c;
  }

  /** One bulk string: read back whole, or the end of the file is noticed. */
  lemma ReadBulk(data: bytes, pos: nat, a: bytes, n: nat, argv: Command)
    requires |a| <= LONG_MAX && n >= 1
    requires Continues(data, pos, Bulk(a))
    ensures pos + |Bulk(a)| <= |data| ==>
              ReadArgs(data, pos, n, argv) == ReadArgs(data, pos + |Bulk(a)|, n - 1, argv + [a])
    ensures pos + |Bulk(a)| > |data| ==> ReadArgs(data, pos, n, argv) == Short
  {
    hide Strtol, Fgets;
    var d := Decimal(|a|);
    var line := [DOLLAR] + d + [CR, LF];
    assert [] + line + (a + [CR, LF]) == Bulk(a);
    ContinuesPart(data, pos, [], line, a + [CR, LF]);
    if pos < |data| < pos + |line| {
      ReadCutLine(data, pos, DOLLAR, |a|);
    } else if pos < |data| {
      ReadNumberLine(data, pos, DOLLAR, |a|);
      var start := pos + |line|;
      if start + |a| + 2 <= |data| {
        assert line + a + [CR, LF] == Bulk(a);
        ContinuesPart(data, pos, line, a, [CR, LF]);
        assert data[start..start + |a|] == a;
      }
    }
  }

  lemma {:induction false} ReadArgsFrom(data: bytes, base: nat, c: Command, j: nat)
    requires j <= |c| && (forall i :: 0 <= i < |c| ==> |c[i]| <= LONG_MAX)
    requires Continues(data, base, Bulks(c)) && base + |Bulks(c[..j])| <= |data|
    ensures var r := ReadArgs(data, base + |Bulks(c[..j])|, |c| - j, c[..j]);
            r == if base + |Bulks(c)| <= |data| then Got(c, base + |Bulks(c)|) else Short
    decreases |c| - j
  {
    hide Bulk, Bulks, Continues, ReadArgs;
    var at := base + |Bulks(c[..j])|;
    if j == |c| {
      assert c[..j] == c;
      NoMoreArgs(data, at, c);
    } else {
      BulksSplit(c, j);
      BulksNext(c, j);
      ContinuesPart(data, base, Bulks(c[..j]), Bulk(c[j]), Bulks(c[j + 1..]));
      ReadBulk(data, at, c[j], |c| - j, c[..j]);
      assert c[..j] + [c[j]] == c[..j + 1];
      if at + |Bulk(c[j])| <= |data| {
        ReadArgsFrom(data, base, c, j + 1);
      }
    }
  }

  lemma NoMoreArgs(data: bytes, pos: nat, argv: Command)
    requires pos <= |data|
    ensures ReadArgs(data, pos, 0, argv) == Got(argv, pos)
  {}

  /** The reader at the start of a written command that is wholly there, cut, or absent. */
  lemma ReadWritten(data: bytes, pos: nat, c: Command)
    requires Writable(c) && Continues(data, pos, Encode(c)) && pos < |data|
    ensures ReadCommand(data, pos) == if pos + |Encode(c)| <= |data| then Got(c, pos + |Encode(c)|) else Short
  {
    hide Strtol, Atoi, Fgets, ReadArgs;
    var h := Header(|c|);
    assert [] + h + Bulks(c) == Encode(c);
    assert h + Bulks(c) + [] == Encode(c);
    ContinuesPart(data, pos, [], h, Bulks(c));
    if |data| < pos + |h| {
      ReadCutLine(data, pos, STAR, |c|);
      if |Fgets(data, pos).text| > 1 {
        ReadNothing(data, Atoi(Fgets(data, pos).text[1..]));
      }
    } else {
      ReadNumberLine(data, pos, STAR, |c|);
      ContinuesPart(data, pos, h, Bulks(c), []);
      ReadArgsFrom(data, pos + |h|, c, 0);
      assert c[..0] == [];
    }
  }

  lemma ReadNothing(data: bytes, n: nat)
    requires n >= 1
    ensures ReadArgs(data, |data|, n, []) == Short
  {}

  // ------------------------------------------------------------------------------
  // Anything else
  // ------------------------------------------------------------------------------

  /** A byte that starts neither a command nor an annotation. */
  lemma ReadJunk(data: bytes, pos: nat)
    requires pos < |data| && data[pos] != 42 && data[pos] != 35
    ensures ReadCommand(data, pos) == Malformed
  {
    assert Fgets(data, pos).text[0] == data[pos];
  }

  /** A command without a number of arguments. */
  lemma ReadNoArgs(data: bytes, pos: nat)
    requires pos + 1 < |data| && data[pos] == 42
    requires !IsDigit(data[pos + 1]) && !IsSpace(data[pos + 1]) && data[pos + 1] != 43 && data[pos + 1] != 45
    requires data[pos + 1] != 0
    ensures ReadCommand(data, pos) == Malformed
  {
    var line := Fgets(data, pos);
    var stop := if pos + LINE_BUFFER - 1 <= |data| then pos + LINE_BUFFER - 1 else |data|;
    assert LineEnd(data, pos, stop) == LineEnd(data, pos + 1, stop);
    assert line.text[0] == 42 && |line.text| > 1 && line.text[1] == data[pos + 1];
    var t := line.text[1..];
    assert SkipSpaces(t) == t && Strtol(t) == 0;
  }

  /** An argument that does not start with a dollar sign. */
  lemma ReadNoBulk(data: bytes, pos: nat, n: nat, argv: Command)
    requires pos < |data| && data[pos] != 36 && n > 0
    ensures ReadArgs(data, pos, n, argv) == Malformed
  {
    assert Fgets(data, pos).text[0] == data[pos];
  }

  /** A whole annotation line. */
  lemma ReadNote(before: bytes, note: bytes, rest: bytes)
    requires |note| < LINE_BUFFER - 2 && LF !in note
    ensures var line := [HASH] + note + [LF];
            ReadCommand(before + (line + rest), |before|) == Annotation(|before + line|)
  {
    var line := [HASH] + note + [LF];
    var data, pos := before + (line + rest), |before|;
    assert forall i :: 0 <= i < |line| ==> data[pos + i] == line[i];
    var stop := if pos + LINE_BUFFER - 1 <= |data| then pos + LINE_BUFFER - 1 else |data|;
    forall j | pos <= j < pos + |line| - 1 ensures data[j] != LF {
      assert data[pos + (j - pos)] == line[j - pos];
    }
    LineEndAt(data, pos, stop, pos + |line|);
  }

  /** The format itself, for a command of two short arguments. */
  lemma WireFormat(a: bytes, b: bytes)
    requires |a| < 10 && |b| < 10
    ensures Encode([a, b]) == [42, 50, 13, 10] + ([36, 48 + |a|, 13, 10] + a + [13, 10]) +
                                                 ([36, 48 + |b|, 13, 10] + b + [13, 10])
  {
    BulkFormat(a);
    BulkFormat(b);
    hide Bulk;
    var c := [a, b];
    assert c[..1] == [a] && [a][..0] == [];
    assert Bulks([a]) == Bulks([]) + Bulk(a) == Bulk(a);
    assert Bulks(c) == Bulks([a]) + Bulk(b);
    assert Header(2) == [42, 50, 13, 10];
  }

  lemma BulkFormat(a: bytes)
    requires |a| < 10
    ensures Bulk(a) == [36, 48 + |a|, 13, 10] + a + [13, 10]
  {
    assert Decimal(|a|) == [48 + |a|];
  }

  /** Lengths are written in base ten, highest digit first. */
  lemma DecimalFormat(n: nat, d: nat)
    requires d < 10
    ensures Decimal(d) == [48 + d] && (n > 0 ==> Decimal(10 * n + d) == Decimal(n) + [48 + d])
  {}
}
