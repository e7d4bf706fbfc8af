/** The manifest file: printing (`aofInfoFormat`, `getAofManifestAsString`), loading
    (`aofLoadManifestFromFile`), and exactly when loading gives back what was printed. */
module AofManifestText {
  import opened ByteStrings
  import opened AofCodec
  import opened Sds

  const KEY_FILE: bytes := [102, 105, 108, 101]
  const KEY_SEQ: bytes := [115, 101, 113]
  const KEY_TYPE: bytes := [116, 121, 112, 101]

  const TYPE_BASE: byte := 98
  const TYPE_HIST: byte := 104
  const TYPE_INCR: byte := 105

  /** `MANIFEST_MAX_LINE`. */
  const MAX_LINE := 1024

  datatype Info = Info(name: bytes, num: int, kind: byte)

  /** The lines of a manifest in the order they are printed, and the counters. */
  datatype Manifest = Manifest(base: seq<Info>, history: seq<Info>, incr: seq<Info>, baseSeq: int, incrSeq: int)

  // ------------------------------------------------------------------------------
  // Printing
  // ------------------------------------------------------------------------------

  function Tokens(ai: Info): seq<bytes>
    requires ai.num >= 0
  {
    [KEY_FILE, ai.name, KEY_SEQ, Decimal(ai.num), KEY_TYPE, [ai.kind]]
  }

  /** `aofInfoFormat`. */
  function FormatInfo(ai: Info): bytes
    requires ai.num >= 0
  {
    KEY_FILE + [SPACE] + Printed(ai.name) + [SPACE] + KEY_SEQ + [SPACE] + Decimal(ai.num) + [SPACE] +
    KEY_TYPE + [SPACE] + [ai.kind] + [LF]
  }

  predicate Numbered(infos: seq<Info>) {
    forall i :: 0 <= i < |infos| ==> infos[i].num >= 0
  }

  function FormatAll(infos: seq<Info>): bytes
    requires Numbered(infos)
  {
    if |infos| == 0 then [] else FormatAll(infos[..|infos| - 1]) + FormatInfo(infos[|infos| - 1])
  }

  function Infos(m: Manifest): seq<Info> {
    m.base + m.history + m.incr
  }

  /** `getAofManifestAsString`: the base, the history and the incr lines, in this order. */
  method Print(m: Manifest) returns (r: bytes)
    requires |m.base| <= 1 && Numbered(m.base) && Numbered(m.history) && Numbered(m.incr)
    ensures Numbered(Infos(m)) && r == FormatAll(Infos(m))
  {
    hide FormatInfo;
    r := [];
    if |m.base| == 1 {
      r := r + FormatInfo(m.base[0]);
    }
    assert m.base[..|m.base|] == m.base;
    assert |m.base| == 1 ==> m.base[..0] == [] && FormatAll(m.base) == FormatAll(m.base[..0]) + FormatInfo(m.base[0]);
    assert r == FormatAll(m.base);
    FormatAppend(m.base, m.history);
    var text := PrintList(m.history);
    r := r + text;
    FormatAppend(m.base + m.history, m.incr);
    text := PrintList(m.incr);
    r := r + text;
  }

  method PrintList(list: seq<Info>) returns (r: bytes)
    requires Numbered(list)
    ensures r == FormatAll(list)
  {
    hide FormatInfo;
    r := [];
    for i := 0 to |list|
      invariant r == FormatAll(list[..i])
    {
      assert list[..i + 1][..i] == list[..i];
      r := r + FormatInfo(list[i]);
    }
    assert list[..|list|] == list;
  }

  lemma {:induction false} FormatAppend(a: seq<Info>, b: seq<Info>)
    requires Numbered(a) && Numbered(b)
    ensures Numbered(a + b) && FormatAll(a + b) == FormatAll(a) + FormatAll(b)
    decreases |b|
  {
    hide FormatInfo;
    if |b| == 0 {
      assert a + b == a;
    } else {
      assert (a + b)[..|a + b| - 1] == a + b[..|b| - 1];
      FormatAppend(a, b[..|b| - 1]);
    }
  }

  // ------------------------------------------------------------------------------
  // Loading
  // ------------------------------------------------------------------------------

  predicate IsBlank(c: byte) {
    c == SPACE || c == 9 || c == CR || c == LF
  }

  function TrimLeft(s: bytes): bytes {
    if |s| > 0 && IsBlank(s[0]) then TrimLeft(s[1..]) else s
  }

  function TrimRight(s: bytes): bytes {
    if |s| > 0 && IsBlank(s[|s| - 1]) then TrimRight(s[..|s| - 1]) else s
  }

  /** `sdstrim(line, " \\t\\r\\n")`. */
  function Trim(s: bytes): bytes {
    TrimRight(TrimLeft(s))
  }

  function CString(s: bytes): bytes {
    if |s| == 0 || s[0] == 0 then [] else [s[0]] + CString(s[1..])
  }

  /** `!strcasecmp(tok, key)`. */
  predicate Matches(tok: bytes, key: bytes) {
    var t := CString(tok);
    |t| == |key| && forall i :: 0 <= i < |t| ==> LowerChar(t[i]) == LowerChar(key[i])
  }

  /** `pathIsBaseName`: neither slash nor backslash. */
  predicate IsBaseName(name: bytes) {
    47 !in name && BACKSLASH !in name
  }

  datatype Fields = Fields(name: seq<bytes>, num: int, kind: byte) | BadPath

  /** The key-value pairs of one line; later ones win, unknown ones are ignored. */
  function ReadFields(argv: seq<bytes>, f: Fields): Fields
    decreases |argv|
  {
    if |argv| < 2 || f.BadPath? then f
    else
      var v := argv[1];
      var g := if Matches(argv[0], KEY_FILE) then
                 (if IsBaseName(CString(v)) then f.(name := [CString(v)]) else BadPath)
               else if Matches(argv[0], KEY_SEQ) then f.(num := Strtol(CString(v)))
               else if Matches(argv[0], KEY_TYPE) then f.(kind := if |v| > 0 then v[0] else 0)
               else f;
      ReadFields(argv[2..], g)
  }

  datatype LineResult = Comment | Entry(info: Info) | Invalid

  /** Everything done with one line. */
  function ParseLine(buf: bytes): LineResult {
    if |buf| > 0 && buf[0] == HASH then Comment
    else if LF !in CString(buf) then Invalid
    else
      var line := Trim(CString(buf));
      if |line| == 0 then Invalid
      else
        match SplitFrom(line, 0, [])
        case Unbalanced => Invalid
        case Args(argv) =>
          if |argv| < 6 || |argv| % 2 == 1 then Invalid
          else
            match ReadFields(argv, Fields([], 0, 0))
            case BadPath => Invalid
            case Fields(name, num, kind) =>
              if name == [] || num == 0 || kind == 0 then Invalid else Entry(Info(name[0], num, kind))
  }

  datatype Loaded = Ok(manifest: Manifest) | Fatal

  const EMPTY := Manifest([], [], [], 0, 0)

  /** One more entry of a manifest being loaded; `maxSeq` is the last incr number. */
  function AddInfo(m: Manifest, ai: Info): Loaded {
    if ai.kind == TYPE_BASE then
      if m.base != [] then Fatal else Ok(m.(base := [ai], baseSeq := ai.num))
    else if ai.kind == TYPE_HIST then Ok(m.(history := m.history + [ai]))
    else if ai.kind == TYPE_INCR then
      if ai.num <= m.incrSeq then Fatal else Ok(m.(incr := m.incr + [ai], incrSeq := ai.num))
    else Fatal
  }

  /** The lines from `pos` on. */
  function LoadFrom(text: bytes, pos: nat, m: Manifest): Loaded
    requires pos <= |text|
    decreases |text| - pos
  {
    if pos == |text| then Ok(m)
    else
      var line := FgetsSize(text, pos, MAX_LINE + 1);
      match ParseLine(line.text)
      case Comment => LoadFrom(text, line.next, m)
      case Invalid => Fatal
      case Entry(ai) =>
        var r := AddInfo(m, ai);
        if r.Fatal? then Fatal else LoadFrom(text, line.next, r.manifest)
  }

  function LoadManifest(text: bytes): Loaded {
    if |text| == 0 then Fatal else LoadFrom(text, 0, EMPTY)
  }

  /** `aofLoadManifestFromFile` on the text of the file. */
  method Load(text: bytes) returns (r: Loaded)
    ensures r == LoadManifest(text)
  {
    hide ParseLine, AddInfo;
    var m := EMPTY;
    var pos, linenum: nat := 0, 0;
    while true
      invariant pos <= |text| && (linenum == 0 <==> pos == 0)
      invariant |text| > 0 ==> LoadFrom(text, pos, m) == LoadManifest(text)
      decreases |text| - pos
    {
      if pos == |text| {
        return if linenum == 0 then Fatal else Ok(m);
      }
      var line := FgetsSize(text, pos, MAX_LINE + 1);
      linenum, pos := linenum + 1, line.next;
      match ParseLine(line.text) {
        case Comment =>
        case Invalid =>
          return Fatal;
        case Entry(ai) =>
          var added := AddInfo(m, ai);
          if added.Fatal? {
            return Fatal;
          }
          m := added.manifest;
      }
    }
  }

  // ------------------------------------------------------------------------------
  // One line
  // ------------------------------------------------------------------------------

  /** What every entry of a manifest satisfies: a plain file name, a number from 1 up and
      one of the three types. */
  predicate ValidInfo(ai: Info) {
    && |ai.name| > 0 && 0 !in ai.name && IsBaseName(ai.name)
    && 1 <= ai.num <= LONG_MAX
    && (ai.kind == TYPE_BASE || ai.kind == TYPE_HIST || ai.kind == TYPE_INCR)
  }

  /** The characters of a printed line before its line feed: no zero and no line feed. */
  predicate Clean(s: bytes) {
    forall i :: 0 <= i < |s| ==> s[i] != 0 && s[i] != LF
  }

  lemma {:induction false} EscapeClean(s: bytes)
    ensures Clean(EscapeAll(s))
  {
    if |s| > 0 {
      EscapeClean(s[1..]);
    }
  }

  lemma PrintedClean(name: bytes)
    requires 0 !in name
    ensures Clean(Printed(name))
  {
    EscapeClean(name);
    if !NeedsRepr(name) {
      forall i | 0 <= i < |name| ensures name[i] != 0 && name[i] != LF {
        assert name[i] in name && !Special(name[i]);
      }
    }
  }

  lemma {:induction false} CStringClean(s: bytes)
    requires 0 !in s
    ensures CString(s) == s
  {
    if |s| > 0 {
      CStringClean(s[1..]);
    }
  }

  /** The line without its line feed. */
  function Body(ai: Info): bytes
    requires ai.num >= 0
  {
    Join(Tokens(ai))
  }

  lemma PlainWord(w: bytes)
    requires forall i :: 0 <= i < |w| ==> !Special(w[i]) && w[i] != SQUOTE
    ensures Printed(w) == w && (|w| > 0 ==> Readable(w))
  {}

  lemma WordsPlain(ai: Info)
    requires ValidInfo(ai)
    ensures Printed(KEY_FILE) == KEY_FILE && Printed(KEY_SEQ) == KEY_SEQ && Printed(KEY_TYPE) == KEY_TYPE
    ensures Printed(Decimal(ai.num)) == Decimal(ai.num) && Printed([ai.kind]) == [ai.kind]
    ensures Readable(KEY_FILE) && Readable(KEY_SEQ) && Readable(KEY_TYPE)
    ensures Readable(Decimal(ai.num)) && Readable([ai.kind])
  {
    hide Printed, Readable;
    PlainWord(KEY_FILE);
    PlainWord(KEY_SEQ);
    PlainWord(KEY_TYPE);
    PlainWord(Decimal(ai.num));
    PlainWord([ai.kind]);
  }

  lemma FormatIsBody(ai: Info)
    requires ValidInfo(ai)
    ensures FormatInfo(ai) == Body(ai) + [LF]
  {
    hide Printed, Decimal;
    WordsPlain(ai);
    var t: seq<bytes> := Tokens(ai);
    var j5, j4, j3, j2, j1 := Join(t[5..]), Join(t[4..]), Join(t[3..]), Join(t[2..]), Join(t[1..]);
    assert j5 == [ai.kind];
    assert t[4..][1..] == t[5..] && j4 == KEY_TYPE + [SPACE] + j5;
    assert t[3..][1..] == t[4..] && j3 == Decimal(ai.num) + [SPACE] + j4;
    assert t[2..][1..] == t[3..] && j2 == KEY_SEQ + [SPACE] + j3;
    assert t[1..][1..] == t[2..] && j1 == Printed(ai.name) + [SPACE] + j2;
    assert Body(ai) == KEY_FILE + [SPACE] + j1;
  }

  /** `FormatInfo` up to the name, and after it. */
  function Before(): bytes { KEY_FILE + [SPACE] }

  function After(ai: Info): bytes
    requires ai.num >= 0
  {
    [SPACE] + KEY_SEQ + [SPACE] + Decimal(ai.num) + [SPACE] + KEY_TYPE + [SPACE] + [ai.kind]
  }

  lemma FormatParts(ai: Info)
    requires ValidInfo(ai)
    ensures FormatInfo(ai) == Before() + Printed(ai.name) + After(ai) + [LF]
    ensures Body(ai) == Before() + Printed(ai.name) + After(ai)
  {
    hide Printed, Decimal, Body;
    FormatIsBody(ai);
    assert FormatInfo(ai) == Before() + Printed(ai.name) + After(ai) + [LF];
    assert Body(ai) == FormatInfo(ai)[..|FormatInfo(ai)| - 1];
  }

  lemma BodyClean(ai: Info)
    requires ValidInfo(ai)
    ensures Clean(Body(ai)) && |Body(ai)| >= 10 && Body(ai)[0] == 102 && Body(ai)[|Body(ai)| - 1] == ai.kind
  {
    hide Printed, Body;
    FormatParts(ai);
    PrintedClean(ai.name);
    var b, p, a := Before(), Printed(ai.name), After(ai);
    assert Clean(b) && Clean(a);
    CleanSum(b, p);
    CleanSum(b + p, a);
  }

  lemma CleanSum(a: bytes, b: bytes)
    requires Clean(a) && Clean(b)
    ensures Clean(a + b)
  {}

  lemma TrimBody(body: bytes)
    requires Clean(body) && |body| > 0 && !IsBlank(body[0]) && !IsBlank(body[|body| - 1])
    ensures CString(body + [LF]) == body + [LF] && LF in body + [LF] && Trim(body + [LF]) == body
  {
    var s := body + [LF];
    assert 0 !in s;
    CStringClean(s);
    assert s[|s| - 1] == LF;
    assert TrimLeft(s) == s;
    assert s[..|s| - 1] == body;
    assert TrimRight(s) == TrimRight(body) == body;
  }

  lemma FieldsOfTokens(ai: Info, v: bytes)
    requires ValidInfo(ai)
    ensures ReadFields(Tokens(ai.(name := v)), Fields([], 0, 0)) ==
            if IsBaseName(CString(v)) then Fields([CString(v)], ai.num, ai.kind) else BadPath
  {
    NumberRead(ai.num);
    KeysMatch();
    hide Matches, Strtol, CString, IsBaseName, Decimal, ReadFields;
    ThreeFields(KEY_FILE, v, KEY_SEQ, Decimal(ai.num), KEY_TYPE, [ai.kind], Fields([], 0, 0));
  }

  /** The three pairs of a line, one after the other. */
  lemma ThreeFields(a: bytes, va: bytes, b: bytes, vb: bytes, c: bytes, vc: bytes, f: Fields)
    requires f.Fields?
    ensures var x := FieldOf(a, va, f);
            ReadFields([a, va, b, vb, c, vc], f) ==
            if x.BadPath? then BadPath
            else
              var y := FieldOf(b, vb, x);
              if y.BadPath? then BadPath else FieldOf(c, vc, y)
  {
    hide FieldOf, ReadFields;
    assert [a, va, b, vb, c, vc] == [a, va] + [b, vb, c, vc];
    FieldStep(a, va, [b, vb, c, vc], f);
    var x := FieldOf(a, va, f);
    if x.BadPath? {
      FieldsEnd([b, vb, c, vc], x);
    } else {
      assert [b, vb, c, vc] == [b, vb] + [c, vc];
      FieldStep(b, vb, [c, vc], x);
      var y := FieldOf(b, vb, x);
      if y.BadPath? {
        FieldsEnd([c, vc], y);
      } else {
        assert [c, vc] == [c, vc] + [];
        FieldStep(c, vc, [], y);
        FieldsEnd([], FieldOf(c, vc, y));
      }
    }
  }

  lemma NumberRead(n: nat)
    requires n <= LONG_MAX
    ensures Strtol(CString(Decimal(n))) == n
  {
    CStringClean(Decimal(n));
    NumberReads(n, |Decimal(n)|, []);
    DigitsOfDecimal(n);
    assert Decimal(n)[..|Decimal(n)|] + [] == Decimal(n);
  }

  /** What one key-value pair does. */
  function FieldOf(key: bytes, v: bytes, f: Fields): Fields
    requires f.Fields?
  {
    if Matches(key, KEY_FILE) then (if IsBaseName(CString(v)) then f.(name := [CString(v)]) else BadPath)
    else if Matches(key, KEY_SEQ) then f.(num := Strtol(CString(v)))
    else if Matches(key, KEY_TYPE) then f.(kind := if |v| > 0 then v[0] else 0)
    else f
  }

  lemma FieldStep(key: bytes, v: bytes, rest: seq<bytes>, f: Fields)
    requires f.Fields?
    ensures ReadFields([key, v] + rest, f) == ReadFields(rest, FieldOf(key, v, f))
  {
    hide Matches, Strtol, CString, IsBaseName;
    assert ([key, v] + rest)[2..] == rest;
  }

  lemma FieldsEnd(argv: seq<bytes>, f: Fields)
    requires |argv| < 2 || f.BadPath?
    ensures ReadFields(argv, f) == f
  {}

  lemma KeysMatch()
    ensures Matches(KEY_FILE, KEY_FILE) && Matches(KEY_SEQ, KEY_SEQ) && Matches(KEY_TYPE, KEY_TYPE)
    ensures !Matches(KEY_SEQ, KEY_FILE) && !Matches(KEY_TYPE, KEY_FILE) && !Matches(KEY_TYPE, KEY_SEQ)
  {
    CStringClean(KEY_FILE);
    CStringClean(KEY_SEQ);
    CStringClean(KEY_TYPE);
    assert LowerChar(KEY_TYPE[0]) != LowerChar(KEY_FILE[0]);
  }

  /** A printed line is read back if the name is printed readably. */
  lemma ParseFormatted(ai: Info)
    requires ValidInfo(ai) && Readable(ai.name)
    ensures ParseLine(FormatInfo(ai)) == Entry(ai)
  {
    hide Join, ReadFields, Readable, Trim, CString, SplitFrom, FormatInfo, Decimal;
    var body := Body(ai);
    FormatIsBody(ai);
    BodyClean(ai);
    TrimBody(body);
    assert At(body, 0, body);
    WordsPlain(ai);
    SplitJoin(body, 0, Tokens(ai), []);
    assert [] + Tokens(ai) == Tokens(ai);
    CStringClean(ai.name);
    FieldsOfTokens(ai, ai.name);
  }

  lemma {:induction false} CStringShorter(s: bytes)
    ensures |CString(s)| <= |s|
  {
    if |s| > 0 {
      CStringShorter(s[1..]);
    }
  }

  lemma AfterWords(ai: Info)
    requires ValidInfo(ai)
    ensures After(ai) == [SPACE] + Join(Tokens(ai)[2..])
    ensures forall k :: 0 <= k < |After(ai)| ==> After(ai)[k] != SQUOTE && After(ai)[k] != BACKSLASH
  {
    hide Printed, Readable;
    WordsPlain(ai);
    var t: seq<bytes> := Tokens(ai);
    var j5, j4, j3, j2 := Join(t[5..]), Join(t[4..]), Join(t[3..]), Join(t[2..]);
    assert j5 == [ai.kind];
    assert t[4..][1..] == t[5..] && j4 == KEY_TYPE + [SPACE] + j5;
    assert t[3..][1..] == t[4..] && j3 == Decimal(ai.num) + [SPACE] + j4;
    assert t[2..][1..] == t[3..] && j2 == KEY_SEQ + [SPACE] + j3;
    forall k | 0 <= k < |Decimal(ai.num)| ensures Decimal(ai.num)[k] != SQUOTE && Decimal(ai.num)[k] != BACKSLASH {
      assert IsDigit(Decimal(ai.num)[k]);
    }
  }

  /** Where the splitter stands behind the first word of a line. */
  lemma SplitFirstWord(body: bytes)
    requires At(body, 0, Before()) && |body| > 5 && !IsSpace(body[5])
    ensures SplitFrom(body, 0, []) ==
            var t := ReadToken(body, 5, Bare, []);
            if t.Bad? then Unbalanced else SplitFrom(body, t.next, [KEY_FILE, t.text])
  {
    AtSplit(body, 0, KEY_FILE, [SPACE]);
    AtOne(body, 4, SPACE);
    PlainWord(KEY_FILE);
    ReadPrinted(body, 0, KEY_FILE);
    hide ReadToken;
    SkipOne(body, 4, [KEY_FILE]);
    assert [] + [KEY_FILE] == [KEY_FILE];
    assert forall x: bytes :: [KEY_FILE] + [x] == [KEY_FILE, x];
  }

  /** The line of a name with an unquoted single quote is refused, or gives another name. */
  lemma ParseRawQuote(ai: Info)
    requires ValidInfo(ai) && !Readable(ai.name)
    ensures var r := ParseLine(FormatInfo(ai));
            r == Invalid || (r.Entry? && |r.info.name| < |ai.name| && r.info.kind == ai.kind && r.info.num == ai.num)
  {
    hide Join, ReadFields, Trim, CString, SplitFrom, ReadToken, FormatInfo, Decimal, After, Body;
    var body, n := Body(ai), |ai.name|;
    FormatParts(ai);
    FormatIsBody(ai);
    BodyClean(ai);
    TrimBody(body);
    assert Printed(ai.name) == ai.name;
    assert At(body, 0, Before()) && At(body, 5, ai.name) && At(body, 5 + n, After(ai));
    AfterWords(ai);
    assert body[5] == ai.name[0] && !Special(ai.name[0]);
    SplitFirstWord(body);
    forall k | 5 + n <= k < |body| ensures body[k] != SQUOTE && body[k] != BACKSLASH {
      assert body[k] == After(ai)[k - 5 - n];
    }
    RawQuoteLost(body, 5, ai.name);
    var t := ReadToken(body, 5, Bare, []);
    if t.Token? {
      SplitRest(body, 5 + n, ai, t.text);
      FieldsOfTokens(ai, t.text);
      CStringShorter(t.text);
    }
  }

  lemma SplitRest(body: bytes, i: nat, ai: Info, v: bytes)
    requires ValidInfo(ai) && i <= |body| && At(body, i, After(ai)) && i + |After(ai)| == |body|
    ensures SplitFrom(body, i, [KEY_FILE, v]) == Args(Tokens(ai.(name := v)))
  {
    hide Join, SplitFrom, Readable, After, At, Decimal;
    var rest: seq<bytes> := Tokens(ai)[2..];
    AfterWords(ai);
    AtSplit(body, i, [SPACE], Join(rest));
    AtOne(body, i, SPACE);
    SkipOne(body, i, [KEY_FILE, v]);
    WordsPlain(ai);
    SplitJoin(body, i + 1, rest, [KEY_FILE, v]);
    assert [KEY_FILE, v] + rest == Tokens(ai.(name := v));
  }

  // ------------------------------------------------------------------------------
  // The whole file
  // ------------------------------------------------------------------------------

  /** A manifest as the server keeps it, with at least one entry and with the counters that
      loading restores. */
  predicate ValidManifest(m: Manifest) {
    && |m.base| <= 1 && |Infos(m)| >= 1
    && (forall i :: 0 <= i < |m.base| ==> ValidInfo(m.base[i]) && m.base[i].kind == TYPE_BASE)
    && (forall i :: 0 <= i < |m.history| ==> ValidInfo(m.history[i]) && m.history[i].kind == TYPE_HIST)
    && (forall i :: 0 <= i < |m.incr| ==> ValidInfo(m.incr[i]) && m.incr[i].kind == TYPE_INCR)
    && (forall i, j :: 0 <= i < j < |m.incr| ==> m.incr[i].num < m.incr[j].num)
    && m.baseSeq == (if |m.base| == 1 then m.base[0].num else 0)
    && m.incrSeq == (if |m.incr| > 0 then m.incr[|m.incr| - 1].num else 0)
  }

  lemma InfosValid(m: Manifest)
    requires ValidManifest(m)
    ensures Numbered(Infos(m)) && forall i :: 0 <= i < |Infos(m)| ==> ValidInfo(Infos(m)[i])
  {}

  /** What decides whether an entry survives a restart: its name is printed readably and its
      line fits the buffer. */
  predicate Survives(ai: Info)
    requires ai.num >= 0
  {
    Readable(ai.name) && |FormatInfo(ai)| <= MAX_LINE
  }

  function Clamp(i: int, n: nat): (r: nat)
    ensures r <= n
  {
    if i < 0 then 0 else if i > n then n else i
  }

  /** The manifest made of the first `i` lines of `m`. */
  function Part(m: Manifest, i: nat): Manifest {
    var b, h, n := Clamp(i, |m.base|), Clamp(i - |m.base|, |m.history|), Clamp(i - |m.base| - |m.history|, |m.incr|);
    Manifest(m.base[..b], m.history[..h], m.incr[..n],
             if b > 0 then m.baseSeq else 0, if n > 0 then m.incr[n - 1].num else 0)
  }

  lemma AddNext(m: Manifest, i: nat)
    requires ValidManifest(m) && i < |Infos(m)|
    ensures AddInfo(Part(m, i), Infos(m)[i]) == Ok(Part(m, i + 1))
  {
    var b, h := |m.base|, |m.history|;
    if i < b {
      assert Part(m, i + 1).base == [m.base[0]];
    } else if i < b + h {
      AddHistoryNext(m, i - b);
    } else {
      AddIncrNext(m, i - b - h);
    }
  }

  lemma AddHistoryNext(m: Manifest, j: nat)
    requires ValidManifest(m) && j < |m.history|
    ensures var i := |m.base| + j;
            Infos(m)[i] == m.history[j] && AddInfo(Part(m, i), m.history[j]) == Ok(Part(m, i + 1))
  {
    assert m.history[..j] + [m.history[j]] == m.history[..j + 1];
  }

  lemma AddIncrNext(m: Manifest, j: nat)
    requires ValidManifest(m) && j < |m.incr|
    ensures var i := |m.base| + |m.history| + j;
            Infos(m)[i] == m.incr[j] && AddInfo(Part(m, i), m.incr[j]) == Ok(Part(m, i + 1))
  {
    assert m.incr[..j] + [m.incr[j]] == m.incr[..j + 1];
  }

  lemma PartAll(m: Manifest)
    requires ValidManifest(m)
    ensures Part(m, 0) == EMPTY && Part(m, |Infos(m)|) == m
  {}

  lemma FormatNext(infos: seq<Info>, i: nat)
    requires Numbered(infos) && i < |infos|
    ensures FormatAll(infos[..i + 1]) == FormatAll(infos[..i]) + FormatInfo(infos[i])
  {
    hide FormatInfo;
    assert infos[..i + 1][..i] == infos[..i];
  }

  lemma FormatSplit(infos: seq<Info>, i: nat)
    requires Numbered(infos) && i < |infos|
    ensures FormatAll(infos) == FormatAll(infos[..i]) + FormatInfo(infos[i]) + FormatAll(infos[i + 1..])
  {
    hide FormatInfo, FormatAll;
    FormatNext(infos, i);
    FormatAppend(infos[..i + 1], infos[i + 1..]);
    assert infos[..i + 1] + infos[i + 1..] == infos;
  }

  /** The line read at a position where `body` and a line feed follow. */
  lemma FgetsLine(text: bytes, pos: nat, body: bytes, rest: bytes)
    requires Clean(body) && pos <= |text| && text[pos..] == body + [LF] + rest
    ensures pos < |text|
    ensures |body| < MAX_LINE ==>
              var l := FgetsSize(text, pos, MAX_LINE + 1); l.text == body + [LF] && l.next == pos + |body| + 1
    ensures |body| >= MAX_LINE ==> FgetsSize(text, pos, MAX_LINE + 1).text == body[..MAX_LINE]
  {
    var all := body + [LF] + rest;
    assert |text| == pos + |all|;
    forall k | 0 <= k < |all| ensures text[pos + k] == all[k] {
      assert text[pos..][k] == all[k];
    }
    var stop := if pos + MAX_LINE <= |text| then pos + MAX_LINE else |text|;
    var e := if |body| < MAX_LINE then pos + |body| + 1 else pos + MAX_LINE;
    forall j | pos <= j < e - 1 ensures text[j] != LF {
      assert text[pos + (j - pos)] == all[j - pos];
    }
    LineEndAt(text, pos, stop, e);
    assert text[pos..e] == all[..e - pos];
  }

  /** A line that does not fit is refused. */
  lemma ParseTooLong(ai: Info)
    requires ValidInfo(ai) && |Body(ai)| >= MAX_LINE
    ensures ParseLine(Body(ai)[..MAX_LINE]) == Invalid
  {
    hide Body, Trim, SplitFrom;
    BodyClean(ai);
    var cut := Body(ai)[..MAX_LINE];
    assert 0 !in cut && LF !in cut;
    CStringClean(cut);
  }

  /** One line of the printed manifest, read from a loader that has `m` so far. */
  lemma LoadLine(text: bytes, infos: seq<Info>, i: nat, m: Manifest)
    requires Numbered(infos) && i < |infos| && ValidInfo(infos[i]) && text == FormatAll(infos)
    ensures |FormatAll(infos[..i + 1])| <= |text| && |FormatAll(infos[..i])| < |FormatAll(infos[..i + 1])|
    ensures var at, next := |FormatAll(infos[..i])|, |FormatAll(infos[..i + 1])|;
            Survives(infos[i]) ==>
              LoadFrom(text, at, m) ==
              var r := AddInfo(m, infos[i]); if r.Fatal? then Fatal else LoadFrom(text, next, r.manifest)
    ensures var at, next := |FormatAll(infos[..i])|, |FormatAll(infos[..i + 1])|;
            !Survives(infos[i]) ==>
              LoadFrom(text, at, m) == Fatal ||
              exists ai: Info :: |ai.name| < |infos[i].name| && ai.kind == infos[i].kind && AddInfo(m, ai).Ok? &&
                           LoadFrom(text, at, m) == LoadFrom(text, next, AddInfo(m, ai).manifest)
  {
    hide FormatAll, FormatInfo, Body, ParseLine, AddInfo, Readable;
    var at := |FormatAll(infos[..i])|;
    FormatNext(infos, i);
    FormatSplit(infos, i);
    FormatIsBody(infos[i]);
    BodyClean(infos[i]);
    assert text[at..] == Body(infos[i]) + [LF] + FormatAll(infos[i + 1..]);
    FgetsLine(text, at, Body(infos[i]), FormatAll(infos[i + 1..]));
    if |Body(infos[i])| >= MAX_LINE {
      ParseTooLong(infos[i]);
      HashIsNotFirst(infos[i]);
    } else if Readable(infos[i].name) {
      ParseFormatted(infos[i]);
    } else {
      ParseRawQuote(infos[i]);
    }
  }

  lemma HashIsNotFirst(ai: Info)
    requires ValidInfo(ai)
    ensures |Body(ai)| > 0 && Body(ai)[0] != HASH
  {
    BodyClean(ai);
  }

  /** If every entry survives, loading gives the manifest back. */
  lemma {:induction false} LoadPart(text: bytes, m: Manifest, i: nat)
    requires ValidManifest(m) && Numbered(Infos(m)) && text == FormatAll(Infos(m))
    requires i <= |Infos(m)| && |FormatAll(Infos(m)[..i])| <= |text|
    requires forall k :: 0 <= k < |Infos(m)| ==> Survives(Infos(m)[k])
    ensures LoadFrom(text, |FormatAll(Infos(m)[..i])|, Part(m, i)) == Ok(m)
    decreases |Infos(m)| - i
  {
    hide FormatAll, Survives, AddInfo, Part;
    var infos := Infos(m);
    if i == |infos| {
      assert infos[..i] == infos;
      PartAll(m);
    } else {
      hide LoadFrom;
      InfosValid(m);
      LoadLine(text, infos, i, Part(m, i));
      AddNext(m, i);
      LoadPart(text, m, i + 1);
    }
  }

  /** Loading only ever appends. */
  lemma {:induction false} LoadGrows(text: bytes, pos: nat, m: Manifest)
    requires pos <= |text|
    ensures var r := LoadFrom(text, pos, m);
            r.Ok? ==> m.base <= r.manifest.base && m.history <= r.manifest.history && m.incr <= r.manifest.incr
    decreases |text| - pos
  {
    hide ParseLine;
    if pos < |text| {
      var line := FgetsSize(text, pos, MAX_LINE + 1);
      match ParseLine(line.text)
      case Comment => LoadGrows(text, line.next, m);
      case Invalid =>
      case Entry(ai) =>
        var r := AddInfo(m, ai);
        if r.Ok? {
          LoadGrows(text, line.next, r.manifest);
        }
    }
  }

  /** An entry that does not survive makes the result wrong. */
  lemma BrokenHere(text: bytes, m: Manifest, i: nat)
    requires ValidManifest(m) && Numbered(Infos(m)) && text == FormatAll(Infos(m))
    requires i < |Infos(m)| && |FormatAll(Infos(m)[..i])| <= |text| && !Survives(Infos(m)[i])
    ensures LoadFrom(text, |FormatAll(Infos(m)[..i])|, Part(m, i)) != Ok(m)
  {
    hide FormatAll, Survives, LoadFrom, Part, AddInfo;
    var infos := Infos(m);
    InfosValid(m);
    LoadLine(text, infos, i, Part(m, i));
    if LoadFrom(text, |FormatAll(infos[..i])|, Part(m, i)) == Ok(m) {
      var ai: Info :| |ai.name| < |infos[i].name| && ai.kind == infos[i].kind && AddInfo(Part(m, i), ai).Ok? &&
                LoadFrom(text, |FormatAll(infos[..i])|, Part(m, i)) ==
                LoadFrom(text, |FormatAll(infos[..i + 1])|, AddInfo(Part(m, i), ai).manifest);
      LoadGrows(text, |FormatAll(infos[..i + 1])|, AddInfo(Part(m, i), ai).manifest);
      WrongEntry(m, i, ai);
      assert false;
    }
  }

  /** From the first entry that does not survive on, the result is wrong. */
  lemma {:induction false} LoadBroken(text: bytes, m: Manifest, i: nat)
    requires ValidManifest(m) && Numbered(Infos(m)) && text == FormatAll(Infos(m))
    requires i < |Infos(m)| && |FormatAll(Infos(m)[..i])| <= |text|
    requires exists k :: i <= k < |Infos(m)| && !Survives(Infos(m)[k])
    ensures LoadFrom(text, |FormatAll(Infos(m)[..i])|, Part(m, i)) != Ok(m)
    decreases |Infos(m)| - i
  {
    hide FormatAll, Survives, LoadFrom, Part, AddInfo;
    var infos := Infos(m);
    if Survives(infos[i]) {
      InfosValid(m);
      LoadLine(text, infos, i, Part(m, i));
      AddNext(m, i);
      LoadBroken(text, m, i + 1);
    } else {
      BrokenHere(text, m, i);
    }
  }

  lemma WrongEntry(m: Manifest, i: nat, ai: Info)
    requires ValidManifest(m) && i < |Infos(m)| && ai.kind == Infos(m)[i].kind && ai != Infos(m)[i]
    requires AddInfo(Part(m, i), ai).Ok?
    ensures var w := AddInfo(Part(m, i), ai).manifest;
            !(w.base <= m.base && w.history <= m.history && w.incr <= m.incr)
  {
    var b, h := |m.base|, |m.history|;
    var w := AddInfo(Part(m, i), ai).manifest;
    if i < b {
      assert w.base[0] != m.base[0];
    } else if i < b + h {
      assert w.history[i - b] != m.history[i - b];
    } else {
      assert w.incr[i - b - h] != m.incr[i - b - h];
    }
  }

  /** Printing and loading again is the identity on a manifest exactly if every entry
      survives: no file name with an unquoted single quote, no line over the limit. */
  lemma ReloadIff(m: Manifest)
    requires ValidManifest(m)
    ensures Numbered(Infos(m))
    ensures LoadManifest(FormatAll(Infos(m))) == Ok(m) <==> forall i :: 0 <= i < |Infos(m)| ==> Survives(Infos(m)[i])
  {
    var infos := Infos(m);
    InfosValid(m);
    var text := FormatAll(infos);
    PartAll(m);
    FormatNext(infos, 0);
    assert infos[..0] == [];
    assert |infos| > 0 && ValidInfo(infos[0]);
    hide Survives, LoadFrom, Part, FormatInfo, FormatAll, ValidManifest, ValidInfo, Infos, AddInfo;
    LoadLine(text, infos, 0, EMPTY);
    if forall i :: 0 <= i < |infos| ==> Survives(infos[i]) {
      LoadPart(text, m, 0);
    } else {
      LoadBroken(text, m, 0);
    }
  }

  /** A concrete one: with `it's` as the name of its only incr file, a manifest does not come back. */
  lemma QuoteBreaks() returns (m: Manifest)
    ensures m == Manifest([], [], [Info([105, 116, 39, 115], 1, TYPE_INCR)], 0, 1) && ValidManifest(m)
    ensures Numbered(Infos(m)) && LoadManifest(FormatAll(Infos(m))) != Ok(m)
  {
    var ai := Info([105, 116, 39, 115], 1, TYPE_INCR);
    m := Manifest([], [], [ai], 0, 1);
    QuotedName(ai, m);
    hide LoadManifest, FormatAll, Survives, ValidManifest;
    ReloadIff(m);
  }

  lemma QuotedName(ai: Info, m: Manifest)
    requires ai == Info([105, 116, 39, 115], 1, TYPE_INCR) && m == Manifest([], [], [ai], 0, 1)
    ensures ValidManifest(m) && |Infos(m)| == 1 && !Survives(Infos(m)[0])
  {
    hide FormatInfo;
    assert Infos(m) == [ai];
    assert ai.name[2] == SQUOTE && forall i :: 0 <= i < 4 ==> !Special(ai.name[i]);
  }
}
