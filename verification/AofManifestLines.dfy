/** The lines of a manifest file one by one: what the loader accepts, line by line and field by
    field, and what it makes of any list of entries. */
module AofManifestLines {
  import opened ByteStrings
  import opened AofCodec
  import opened Sds
  import opened AofManifestText

  // ------------------------------------------------------------------------------
  // Any list of entries
  // ------------------------------------------------------------------------------

  /** At most one base, and incr numbers that increase. */
  predicate Acceptable(infos: seq<Info>) {
    forall i, j :: 0 <= i < j < |infos| && infos[i].kind == infos[j].kind ==>
      infos[i].kind != 98 && (infos[i].kind == 105 ==> infos[i].num < infos[j].num)
  }

  /** The entries of one type, in order. */
  function OfKind(infos: seq<Info>, kind: byte): seq<Info> {
    if |infos| == 0 then []
    else OfKind(infos[..|infos| - 1], kind) + if infos[|infos| - 1].kind == kind then [infos[|infos| - 1]] else []
  }

  function LastNum(infos: seq<Info>): int {
    if |infos| == 0 then 0 else infos[|infos| - 1].num
  }

  function Gathered(infos: seq<Info>): Manifest {
    var base, incr := OfKind(infos, 98), OfKind(infos, 105);
    Manifest(base, OfKind(infos, 104), incr, LastNum(base), LastNum(incr))
  }

  lemma OfKindNext(infos: seq<Info>, i: nat, kind: byte)
    requires i < |infos|
    ensures OfKind(infos[..i + 1], kind) ==
            OfKind(infos[..i], kind) + if infos[i].kind == kind then [infos[i]] else []
  {
    assert infos[..i + 1][..i] == infos[..i];
  }

  /** The last entry of a type is one of the list, and none of the type follows it. */
  lemma {:induction false} LastOfKind(infos: seq<Info>, kind: byte)
    ensures OfKind(infos, kind) == [] ==> forall j :: 0 <= j < |infos| ==> infos[j].kind != kind
    ensures OfKind(infos, kind) != [] ==>
              exists i :: 0 <= i < |infos| && infos[i].kind == kind &&
                          infos[i].num == LastNum(OfKind(infos, kind)) &&
                          forall j :: i < j < |infos| ==> infos[j].kind != kind
  {
    if |infos| > 0 {
      var n := |infos| - 1;
      var front := infos[..n];
      LastOfKind(front, kind);
      if infos[n].kind != kind && OfKind(front, kind) != [] {
        var i :| 0 <= i < n && front[i].kind == kind && front[i].num == LastNum(OfKind(front, kind)) &&
                 forall j :: i < j < n ==> front[j].kind != kind;
        assert infos[i] == front[i] && forall j :: i < j < n ==> infos[j] == front[j];
      } else {
        assert forall j :: 0 <= j < n ==> infos[j] == front[j];
      }
    }
  }

  lemma NoneOfKind(front: seq<Info>, kind: byte)
    ensures OfKind(front, kind) == [] <==> forall j :: 0 <= j < |front| ==> front[j].kind != kind
  {
    LastOfKind(front, kind);
  }

  /** A number is above the last incr number exactly if it is above all of them. */
  lemma AboveAll(front: seq<Info>, n: int)
    requires Acceptable(front) && n > 0
    ensures LastNum(OfKind(front, 105)) < n <==>
            forall j :: 0 <= j < |front| && front[j].kind == 105 ==> front[j].num < n
  {
    hide OfKind, LastNum;
    LastOfKind(front, 105);
    if OfKind(front, 105) != [] {
      var i :| 0 <= i < |front| && front[i].kind == 105 && front[i].num == LastNum(OfKind(front, 105)) &&
               forall j :: i < j < |front| ==> front[j].kind != 105;
      forall j | 0 <= j < |front| && front[j].kind == 105 ensures front[j].num <= front[i].num {
        assert j <= i;
      }
    } else {
      NoneLast();
    }
  }

  lemma NoneLast()
    ensures LastNum([]) == 0
  {}

  lemma AcceptNext(infos: seq<Info>, i: nat)
    requires i < |infos| && Acceptable(infos[..i]) && infos[i].kind in {98, 104, 105} && infos[i].num > 0
    ensures AddInfo(Gathered(infos[..i]), infos[i]) ==
            if Acceptable(infos[..i + 1]) then Ok(Gathered(infos[..i + 1])) else Fatal
  {
    hide OfKind, Acceptable;
    var front, ai := infos[..i], infos[i];
    OfKindNext(infos, i, 98);
    OfKindNext(infos, i, 104);
    OfKindNext(infos, i, 105);
    AcceptOne(front, ai);
    assert infos[..i + 1] == front + [ai];
    if ai.kind == 98 {
      NoneOfKind(front, 98);
    } else if ai.kind == 105 {
      AboveAll(front, ai.num);
    }
  }

  lemma AcceptOne(front: seq<Info>, ai: Info)
    requires Acceptable(front)
    ensures Acceptable(front + [ai]) <==>
            forall j :: 0 <= j < |front| && front[j].kind == ai.kind ==>
              ai.kind != 98 && (ai.kind == 105 ==> front[j].num < ai.num)
  {
    var all := front + [ai];
    assert all[|front|] == ai && forall j :: 0 <= j < |front| ==> all[j] == front[j];
  }

  lemma AcceptFirst(infos: seq<Info>, i: nat)
    requires i <= |infos| && Acceptable(infos)
    ensures Acceptable(infos[..i])
  {}

  lemma {:induction false} LoadRest(text: bytes, infos: seq<Info>, i: nat)
    requires Numbered(infos) && text == FormatAll(infos) && i <= |infos| && |FormatAll(infos[..i])| <= |text|
    requires forall k :: 0 <= k < |infos| ==> ValidInfo(infos[k]) && Survives(infos[k])
    requires Acceptable(infos[..i])
    ensures LoadFrom(text, |FormatAll(infos[..i])|, Gathered(infos[..i])) ==
            if Acceptable(infos) then Ok(Gathered(infos)) else Fatal
    decreases |infos| - i
  {
    hide FormatAll, Survives, AddInfo, Gathered, Acceptable;
    if i == |infos| {
      assert infos[..i] == infos;
    } else {
      hide LoadFrom;
      LoadLine(text, infos, i, Gathered(infos[..i]));
      AcceptNext(infos, i);
      if Acceptable(infos[..i + 1]) {
        LoadRest(text, infos, i + 1);
      } else if Acceptable(infos) {
        AcceptFirst(infos, i + 1);
      }
    }
  }

  /** A file of readable entries is loaded if and only if it has an entry, at most one base and
      increasing incr numbers; then the lists are the entries of each type, in order, and the
      counters the numbers of the last base and incr file. */
  lemma LoadsIff(infos: seq<Info>)
    requires Numbered(infos) && forall k :: 0 <= k < |infos| ==> ValidInfo(infos[k]) && Survives(infos[k])
    ensures LoadManifest(FormatAll(infos)) ==
            if |infos| > 0 && Acceptable(infos) then Ok(Gathered(infos)) else Fatal
  {
    hide FormatInfo, LoadFrom, Acceptable, Gathered;
    NoEntries();
    assert infos[..0] == [];
    if |infos| > 0 {
      LoadLine(FormatAll(infos), infos, 0, EMPTY);
      LoadRest(FormatAll(infos), infos, 0);
    }
  }

  lemma NoEntries()
    ensures Acceptable([]) && Gathered([]) == EMPTY && FormatAll([]) == []
  {}

  // ------------------------------------------------------------------------------
  // The fields of a line
  // ------------------------------------------------------------------------------

  /** Pair `i` of a line has this key, up to case. */
  predicate Pair(argv: seq<bytes>, i: nat, key: bytes) {
    2 * i + 1 < |argv| && 0 !in argv[2 * i] && 0 !in argv[2 * i + 1] && |argv[2 * i]| == |key| &&
    forall j :: 0 <= j < |key| ==> LowerChar(argv[2 * i][j]) == LowerChar(key[j])
  }

  /** It is the last one with the key. */
  predicate Decides(argv: seq<bytes>, i: nat, key: bytes) {
    Pair(argv, i, key) && forall k :: i < k < |argv| ==> !Pair(argv, k, key)
  }

  predicate IsPath(v: bytes) {
    47 in v || 92 in v
  }

  predicate NoZeros(argv: seq<bytes>) {
    forall i :: 0 <= i < |argv| ==> 0 !in argv[i]
  }

  lemma PairIs(argv: seq<bytes>, key: bytes)
    requires |argv| >= 2 && NoZeros(argv)
    ensures Pair(argv, 0, key) <==> Matches(argv[0], key)
    ensures CString(argv[1]) == argv[1]
    ensures forall i: nat :: Pair(argv, i + 1, key) <==> Pair(argv[2..], i, key)
  {
    CStringClean(argv[0]);
    CStringClean(argv[1]);
    forall i: nat ensures Pair(argv, i + 1, key) <==> Pair(argv[2..], i, key) {
      if 2 * i + 3 < |argv| {
        assert argv[2..][2 * i] == argv[2 * i + 2] && argv[2..][2 * i + 1] == argv[2 * i + 3];
      }
    }
  }

  // The words `file`, `seq` and `type`.
  const FILE_WORD: bytes := [102, 105, 108, 101]
  const SEQ_WORD: bytes := [115, 101, 113]
  const TYPE_WORD: bytes := [116, 121, 112, 101]

  lemma KeysApart(t: bytes)
    ensures !(Matches(t, FILE_WORD) && Matches(t, SEQ_WORD)) && !(Matches(t, SEQ_WORD) && Matches(t, TYPE_WORD))
    ensures !(Matches(t, FILE_WORD) && Matches(t, TYPE_WORD))
  {
    assert LowerChar(FILE_WORD[0]) == 102 && LowerChar(TYPE_WORD[0]) == 116;
  }

  ghost predicate Absent(argv: seq<bytes>, key: bytes) {
    forall k: nat :: !Pair(argv, k, key)
  }

  /** What pair 0 and the pairs behind it say about a key. */
  lemma FirstPair(argv: seq<bytes>, key: bytes)
    requires |argv| >= 2 && NoZeros(argv)
    ensures Pair(argv, 0, key) <==> Matches(argv[0], key)
    ensures Absent(argv, key) <==> !Pair(argv, 0, key) && Absent(argv[2..], key)
    ensures Decides(argv, 0, key) ==> Absent(argv[2..], key)
    ensures forall i: nat :: Decides(argv, i + 1, key) ==> Decides(argv[2..], i, key)
  {
    PairIs(argv, key);
    hide Matches;
    var rest := argv[2..];
    assert !Pair(argv, 0, key) && Absent(rest, key) ==> Absent(argv, key) by {
      forall k: nat | !Pair(argv, 0, key) && Absent(rest, key) ensures !Pair(argv, k, key) {
        if k > 0 {
          assert Pair(argv, (k - 1) + 1, key) <==> Pair(rest, k - 1, key);
        }
      }
    }
    forall i: nat | Decides(argv, i + 1, key) ensures Decides(rest, i, key) {
      forall k | i < k < |rest| ensures !Pair(rest, k, key) {
        assert Pair(argv, k + 1, key) <==> Pair(rest, k, key);
      }
    }
  }

  /** A value of `file` that is a path refuses the line, wherever it stands. */
  lemma {:induction false} PathsRefused(argv: seq<bytes>, f: Fields)
    requires NoZeros(argv) && f.Fields?
    ensures ReadFields(argv, f).BadPath? <==> exists i: nat :: Pair(argv, i, FILE_WORD) && IsPath(argv[2 * i + 1])
    decreases |argv|
  {
    if |argv| >= 2 {
      PairIs(argv, FILE_WORD);
      hide Matches, Strtol, Pair;
      var rest, g := argv[2..], FieldOf(argv[0], argv[1], f);
      assert argv == [argv[0], argv[1]] + rest;
      FieldStep(argv[0], argv[1], rest, f);
      if g.Fields? {
        PathsRefused(rest, g);
        if i: nat :| Pair(rest, i, FILE_WORD) && IsPath(rest[2 * i + 1]) {
          PairThere(rest, i, FILE_WORD);
          assert Pair(argv, i + 1, FILE_WORD) && argv[2 * (i + 1) + 1] == rest[2 * i + 1];
        }
        if i: nat :| Pair(argv, i, FILE_WORD) && IsPath(argv[2 * i + 1]) {
          assert i > 0;
          assert Pair(argv, (i - 1) + 1, FILE_WORD) <==> Pair(rest, i - 1, FILE_WORD);
          PairThere(rest, i - 1, FILE_WORD);
          assert argv[2 * i + 1] == rest[2 * (i - 1) + 1];
        }
      }
    }
  }

  /** The last pair of a key decides; a key that is absent leaves the field alone. */
  lemma {:induction false} LastDecides(argv: seq<bytes>, f: Fields, i: nat)
    requires NoZeros(argv) && f.Fields? && ReadFields(argv, f).Fields?
    ensures Absent(argv, FILE_WORD) ==> ReadFields(argv, f).name == f.name
    ensures Absent(argv, SEQ_WORD) ==> ReadFields(argv, f).num == f.num
    ensures Absent(argv, TYPE_WORD) ==> ReadFields(argv, f).kind == f.kind
    ensures Decides(argv, i, FILE_WORD) ==> ReadFields(argv, f).name == [argv[2 * i + 1]]
    ensures Decides(argv, i, SEQ_WORD) ==> ReadFields(argv, f).num == Strtol(argv[2 * i + 1])
    ensures Decides(argv, i, TYPE_WORD) ==> ReadFields(argv, f).kind == Letter(argv[2 * i + 1])
    decreases |argv|
  {
    if |argv| >= 2 {
      hide Strtol, Pair, Absent, Decides, FieldOf, ReadFields, NoZeros, Letter;
      RestNoZeros(argv);
      var rest, g := argv[2..], FieldOf(argv[0], argv[1], f);
      assert argv == [argv[0], argv[1]] + rest;
      FieldStep(argv[0], argv[1], rest, f);
      if g.BadPath? {
        FieldsEnd(rest, g);
      }
      FirstPairSays(argv, f);
      LastDecides(rest, g, if i > 0 then i - 1 else 0);
      assert i > 0 ==> i == (i - 1) + 1;
      DecidesThere(argv, i, FILE_WORD);
      DecidesThere(argv, i, SEQ_WORD);
      DecidesThere(argv, i, TYPE_WORD);
    } else {
      TooShort(argv, i);
    }
  }

  lemma TooShort(argv: seq<bytes>, i: nat)
    requires |argv| < 2
    ensures forall key :: !Decides(argv, i, key)
  {}

  lemma RestNoZeros(argv: seq<bytes>)
    requires NoZeros(argv) && |argv| >= 2
    ensures NoZeros(argv[2..])
  {}

  function Letter(v: bytes): byte {
    if v == [] then 0 else v[0]
  }

  /** What the first pair does to each field, and what is left to say behind it. */
  lemma FirstPairSays(argv: seq<bytes>, f: Fields)
    requires |argv| >= 2 && NoZeros(argv) && f.Fields? && FieldOf(argv[0], argv[1], f).Fields?
    ensures var g, rest := FieldOf(argv[0], argv[1], f), argv[2..];
            && Says(argv, FILE_WORD) && Says(argv, SEQ_WORD) && Says(argv, TYPE_WORD)
            && g.name == (if Pair(argv, 0, FILE_WORD) then [argv[1]] else f.name)
            && g.num == (if Pair(argv, 0, SEQ_WORD) then Strtol(argv[1]) else f.num)
            && g.kind == (if Pair(argv, 0, TYPE_WORD) then Letter(argv[1]) else f.kind)
  {
    FirstPair(argv, FILE_WORD);
    FirstPair(argv, SEQ_WORD);
    FirstPair(argv, TYPE_WORD);
    KeysApart(argv[0]);
    PairIs(argv, FILE_WORD);
    hide Matches, Strtol, Pair, Absent, Decides, IsBaseName;
  }

  ghost predicate Says(argv: seq<bytes>, key: bytes)
    requires |argv| >= 2
  {
    && (Absent(argv, key) ==> !Pair(argv, 0, key) && Absent(argv[2..], key))
    && (Decides(argv, 0, key) ==> Pair(argv, 0, key) && Absent(argv[2..], key))
    && (forall i: nat :: Decides(argv, i + 1, key) ==> Decides(argv[2..], i, key))
  }

  lemma DecidesThere(argv: seq<bytes>, i: nat, key: bytes)
    ensures Decides(argv, i, key) ==> Pair(argv, i, key) && 2 * i + 1 < |argv|
    ensures Decides(argv, i, key) && i > 0 ==> argv[2 * i + 1] == argv[2..][2 * (i - 1) + 1]
  {}

  lemma PairThere(argv: seq<bytes>, i: nat, key: bytes)
    requires Pair(argv, i, key)
    ensures 2 * i + 1 < |argv|
  {}

  // ------------------------------------------------------------------------------
  // One line of words
  // ------------------------------------------------------------------------------

  predicate Words(toks: seq<bytes>) {
    |toks| > 0 && forall i :: 0 <= i < |toks| ==> Readable(toks[i]) && 0 !in toks[i]
  }

  lemma PrintedShape(tok: bytes)
    requires Readable(tok) && 0 !in tok
    ensures var p := Printed(tok);
            Clean(p) && |p| > 0 && !IsBlank(p[0]) && !IsBlank(p[|p| - 1]) && (p[0] == 35 ==> tok[0] == 35)
  {
    PrintedClean(tok);
    if !NeedsRepr(tok) {
      assert !Special(tok[0]) && !Special(tok[|tok| - 1]);
    }
  }

  lemma {:induction false} JoinShape(toks: seq<bytes>)
    requires Words(toks)
    ensures var l := Join(toks);
            Clean(l) && |l| > 0 && !IsBlank(l[0]) && !IsBlank(l[|l| - 1]) && (l[0] == 35 ==> toks[0][0] == 35)
  {
    hide Printed, Readable;
    PrintedShape(toks[0]);
    if |toks| > 1 {
      JoinShape(toks[1..]);
      var p, l := Printed(toks[0]), Join(toks[1..]);
      CleanSum(p, [SPACE]);
      CleanSum(p + [SPACE], l);
    }
  }

  /** A line of words is taken apart into them. */
  lemma WordsSplit(toks: seq<bytes>)
    requires Words(toks) && toks[0][0] != 35
    ensures |toks| < 6 || |toks| % 2 == 1 ==> ParseLine(Join(toks) + [10]) == Invalid
    ensures |toks| >= 6 && |toks| % 2 == 0 ==>
              ParseLine(Join(toks) + [10]) ==
              match ReadFields(toks, Fields([], 0, 0))
              case BadPath => Invalid
              case Fields(name, num, kind) =>
                if name == [] || num == 0 || kind == 0 then Invalid else Entry(Info(name[0], num, kind))
  {
    JoinShape(toks);
    hide Join, ReadFields, Readable, Trim, CString, SplitFrom;
    var body := Join(toks);
    TrimBody(body);
    assert At(body, 0, body);
    SplitJoin(body, 0, toks, []);
    assert [] + toks == toks;
  }

  /** What a line says: at least three pairs, no path, and the last `file`, `seq` and `type`. */
  lemma LineReads(toks: seq<bytes>, i: nat, j: nat, k: nat)
    requires Words(toks) && toks[0][0] != 35 && |toks| >= 6 && |toks| % 2 == 0
    requires forall m: nat :: Pair(toks, m, FILE_WORD) ==> !IsPath(toks[2 * m + 1])
    requires Decides(toks, i, FILE_WORD) && Decides(toks, j, SEQ_WORD) && Decides(toks, k, TYPE_WORD)
    ensures ParseLine(Join(toks) + [10]) ==
            var num := Strtol(toks[2 * j + 1]);
            if num == 0 then Invalid else Entry(Info(toks[2 * i + 1], num, toks[2 * k + 1][0]))
  {
    WordsSplit(toks);
    PathsRefused(toks, Fields([], 0, 0));
    LastDecides(toks, Fields([], 0, 0), i);
    LastDecides(toks, Fields([], 0, 0), j);
    LastDecides(toks, Fields([], 0, 0), k);
    hide ReadFields, Join, ParseLine, Strtol;
    assert toks[2 * k + 1][0] in toks[2 * k + 1];
  }

  /** What is refused: too few words, an odd number, a path, or a missing key. */
  lemma LineRefused(toks: seq<bytes>)
    requires Words(toks) && toks[0][0] != 35
    requires || |toks| < 6 || |toks| % 2 == 1
             || (exists m: nat :: Pair(toks, m, FILE_WORD) && IsPath(toks[2 * m + 1]))
             || Absent(toks, FILE_WORD) || Absent(toks, SEQ_WORD) || Absent(toks, TYPE_WORD)
    ensures ParseLine(Join(toks) + [10]) == Invalid
  {
    WordsSplit(toks);
    PathsRefused(toks, Fields([], 0, 0));
    hide ReadFields, Join, ParseLine, Pair, Absent;
    if ReadFields(toks, Fields([], 0, 0)).Fields? {
      LastDecides(toks, Fields([], 0, 0), 0);
    }
  }

  predicate Blanks(a: bytes) {
    forall i :: 0 <= i < |a| ==> a[i] == 32 || a[i] == 9 || a[i] == 13
  }

  /** Blanks around a line do not matter, and a line of nothing else is refused. */
  lemma BlanksIgnored(a: bytes, body: bytes, b: bytes)
    requires Blanks(a) && Blanks(b) && Clean(body)
    requires |body| > 0 ==> !IsBlank(body[0]) && !IsBlank(body[|body| - 1]) && body[0] != 35
    ensures ParseLine(a + body + b + [10]) == if |body| == 0 then Invalid else ParseLine(body + [10])
  {
    hide SplitFrom, CString, Trim;
    TrimAround(a, body, b);
    if |body| > 0 {
      TrimBody(body);
    }
  }

  lemma TrimAround(a: bytes, body: bytes, b: bytes)
    requires Blanks(a) && Blanks(b) && Clean(body)
    requires |body| > 0 ==> !IsBlank(body[0]) && !IsBlank(body[|body| - 1])
    ensures var all := a + body + b + [10];
            CString(all) == all && LF in all && Trim(all) == body && (|a| > 0 ==> all[0] != 35)
            && (|a| == 0 && |body| > 0 ==> all[0] == body[0]) && (|a| == 0 && |body| == 0 ==> all[0] != 35)
  {
    var all := a + body + b + [10];
    AroundClean(a, body, b);
    CStringClean(all);
    assert all[|all| - 1] == LF;
    hide CString, Clean;
    assert all == a + (body + b + [10]);
    TrimLeftPast(a, body + b + [10]);
    if |body| > 0 {
      assert TrimLeft(body + b + [10]) == body + b + [10] == body + (b + [10]);
      TrimRightPast(body, b + [10]);
    } else {
      assert body + b + [10] == b + [10] + [];
      TrimLeftPast(b + [10], []);
    }
  }

  lemma AroundClean(a: bytes, body: bytes, b: bytes)
    requires Blanks(a) && Blanks(b) && Clean(body)
    ensures 0 !in a + body + b + [10]
  {
    CleanSum(a, body);
    CleanSum(a + body, b);
  }

  lemma {:induction false} TrimLeftPast(a: bytes, rest: bytes)
    requires forall i :: 0 <= i < |a| ==> IsBlank(a[i])
    ensures TrimLeft(a + rest) == TrimLeft(rest)
  {
    if |a| == 0 {
      assert a + rest == rest;
    } else {
      assert (a + rest)[1..] == a[1..] + rest;
      TrimLeftPast(a[1..], rest);
    }
  }

  lemma {:induction false} TrimRightPast(rest: bytes, b: bytes)
    requires forall i :: 0 <= i < |b| ==> IsBlank(b[i])
    ensures TrimRight(rest + b) == TrimRight(rest)
  {
    if |b| == 0 {
      assert rest + b == rest;
    } else {
      assert (rest + b)[..|rest + b| - 1] == rest + b[..|b| - 1];
      TrimRightPast(rest, b[..|b| - 1]);
    }
  }

  // ------------------------------------------------------------------------------
  // Lines that are no entries
  // ------------------------------------------------------------------------------

  /** A comment is skipped. */
  lemma CommentSkipped(text: bytes, pos: nat, note: bytes, rest: bytes, m: Manifest)
    requires Clean(note) && |note| < 1023 && pos <= |text| && text[pos..] == [35] + note + [10] + rest
    ensures pos + |note| + 2 <= |text| && LoadFrom(text, pos, m) == LoadFrom(text, pos + |note| + 2, m)
  {
    var body := [35] + note;
    CleanSum([35], note);
    hide LoadFrom, Clean;
    FgetsLine(text, pos, body, rest);
    LoadComment(text, pos, m);
  }

  lemma LoadComment(text: bytes, pos: nat, m: Manifest)
    requires pos < |text| && text[pos] == 35
    ensures LoadFrom(text, pos, m) == LoadFrom(text, FgetsSize(text, pos, MAX_LINE + 1).next, m)
  {
    hide SplitFrom;
  }

  /** A refused line, or a type that is none of the three, refuses the file. */
  lemma LineStops(text: bytes, pos: nat, m: Manifest)
    requires pos < |text|
    ensures var l := ParseLine(FgetsSize(text, pos, 1025).text);
            l == Invalid || (l.Entry? && l.info.kind !in {98, 104, 105}) ==> LoadFrom(text, pos, m) == Fatal
  {
    hide ParseLine;
  }

  /** So does a line without an end, and a file with nothing in it. */
  lemma NoLine(text: bytes)
    requires 10 !in text && (|text| > 0 ==> text[0] != 35)
    ensures LoadManifest(text) == Fatal
  {
    if |text| > 0 {
      var line := FgetsSize(text, 0, MAX_LINE + 1).text;
      NoEnd(line);
      hide CString, SplitFrom;
    }
  }

  lemma {:induction false} NoEnd(s: bytes)
    requires LF !in s
    ensures LF !in CString(s)
  {
    if |s| > 0 && s[0] != 0 {
      NoEnd(s[1..]);
    }
  }

  /** The printed line. */
  lemma LineFormat(ai: Info)
    requires ai.num >= 0
    ensures FormatInfo(ai) == [102, 105, 108, 101, 32] + Printed(ai.name) + [32, 115, 101, 113, 32] + Decimal(ai.num) +
                              [32, 116, 121, 112, 101, 32, ai.kind, 10]
  {
    hide Printed, Decimal;
  }
}
