/** The manifest a starting server reads is the one that was printed: the manifest of the protocol,
    with its files as names, through the text of the manifest file and back. */
module AofReload {
  import opened ByteStrings
  import opened AofCodec
  import opened Sds
  import opened AofManifest
  import Text = AofManifestText
  import Protocol = AofProtocol

  /** What `appendfilename` may be: a file name without a path. */
  predicate FileName(prefix: bytes) {
    |prefix| > 0 && 0 !in prefix && Text.IsBaseName(prefix)
  }

  function KindByte(k: Kind): byte {
    match k
    case Base => Text.TYPE_BASE
    case Hist => Text.TYPE_HIST
    case Incr => Text.TYPE_INCR
  }

  function Shown(prefix: bytes, ai: Info): Text.Info
    requires !ai.file.TempRewrite?
  {
    Text.Info(Render(prefix, ai.file), ai.num, KindByte(ai.kind))
  }

  predicate Nameable(infos: seq<Info>) {
    forall i :: 0 <= i < |infos| ==> (infos[i].file.BaseFile? || infos[i].file.IncrFile?)
  }

  function ShownAll(prefix: bytes, infos: seq<Info>): (r: seq<Text.Info>)
    requires Nameable(infos)
    ensures |r| == |infos| && forall i :: 0 <= i < |r| ==> r[i] == Shown(prefix, infos[i])
  {
    seq(|infos|, i requires 0 <= i < |infos| => Shown(prefix, infos[i]))
  }

  /** The numbers fit the 64-bit integers of the file. */
  predicate Bounded(infos: seq<Info>) {
    forall i :: 0 <= i < |infos| ==> infos[i].num <= LONG_MAX
  }

  predicate Printable(m: Manifest) {
    && Valid(m) && |m.base + m.history + m.incr| > 0
    && Bounded(m.base) && Bounded(m.history) && Bounded(m.incr)
  }

  predicate Named(m: Manifest) {
    Nameable(m.base) && Nameable(m.history) && Nameable(m.incr)
  }

  lemma ValidNamed(m: Manifest)
    requires Valid(m)
    ensures Named(m)
  {
    forall i | 0 <= i < |m.history| ensures m.history[i].file.BaseFile? || m.history[i].file.IncrFile? {
      assert Obsolete(m, m.history[i]);
    }
  }

  /** The manifest with the names and the types that are printed. */
  function ShownManifest(prefix: bytes, m: Manifest): Text.Manifest
    requires Named(m)
  {
    Text.Manifest(ShownAll(prefix, m.base), ShownAll(prefix, m.history), ShownAll(prefix, m.incr), m.baseSeq, m.incrSeq)
  }

  // ------------------------------------------------------------------------------
  // Names
  // ------------------------------------------------------------------------------

  predicate PlainByte(c: byte) {
    !Special(c) && c != SQUOTE && c != 0 && c != 47 && c != BACKSLASH
  }

  predicate AllPlain(s: bytes) {
    forall i :: 0 <= i < |s| ==> PlainByte(s[i])
  }

  lemma PlainSuffixes()
    ensures AllPlain(BASE_SUFFIX) && AllPlain(INCR_SUFFIX) && AllPlain(RDB_SUFFIX) && AllPlain(AOF_SUFFIX)
    ensures AllPlain([DOT])
  {}

  lemma PlainDigits(s: bytes)
    requires forall i :: 0 <= i < |s| ==> IsDigit(s[i])
    ensures AllPlain(s)
  {}

  lemma PlainAppend(a: bytes, b: bytes)
    requires AllPlain(a) && AllPlain(b)
    ensures AllPlain(a + b)
  {
    hide PlainByte;
  }

  /** Everything behind the prefix is plain. */
  lemma PlainRest(f: File)
    requires f.BaseFile? || f.IncrFile?
    ensures AllPlain([DOT] + Decimal(f.num) + Tail(f))
  {
    PlainSuffixes();
    PlainDigits(Decimal(f.num));
    hide AllPlain, Decimal;
    PlainAppend(BASE_SUFFIX, RDB_SUFFIX);
    PlainAppend(BASE_SUFFIX, AOF_SUFFIX);
    PlainAppend(INCR_SUFFIX, AOF_SUFFIX);
    PlainAppend([DOT], Decimal(f.num));
    PlainAppend([DOT] + Decimal(f.num), Tail(f));
  }

  lemma Together(a: bytes, b: bytes, c: bytes, d: bytes)
    ensures a + b + c + d == a + (b + c + d)
  {}

  /** The name of a file is read back exactly if `appendfilename` has no single quote, or has
      characters that make it be printed in quotes. */
  lemma NameReads(prefix: bytes, f: File)
    requires FileName(prefix) && (f.BaseFile? || f.IncrFile?)
    ensures var name := Render(prefix, f);
            && |name| > 0 && 0 !in name && Text.IsBaseName(name)
            && (Readable(name) <==> SQUOTE !in prefix || NeedsRepr(prefix))
  {
    hide Render, Tail, Decimal, AllPlain, NeedsRepr, Text.IsBaseName;
    NumberOf(prefix, f);
    Together(prefix, [DOT], Decimal(f.num), Tail(f));
    PlainRest(f);
    JoinedNames(prefix, [DOT] + Decimal(f.num) + Tail(f));
  }

  lemma JoinedNames(prefix: bytes, rest: bytes)
    requires FileName(prefix) && AllPlain(rest)
    ensures var name := prefix + rest;
            && 0 !in name && Text.IsBaseName(name)
            && (SQUOTE in name <==> SQUOTE in prefix) && (NeedsRepr(name) <==> NeedsRepr(prefix))
  {
    var name := prefix + rest;
    forall c | c in rest ensures PlainByte(c) {}
    if NeedsRepr(prefix) {
      var i :| 0 <= i < |prefix| && Special(prefix[i]);
      assert name[i] == prefix[i];
    }
    if NeedsRepr(name) {
      var i :| 0 <= i < |name| && Special(name[i]);
      assert i >= |prefix| ==> PlainByte(rest[i - |prefix|]);
    }
  }

  // ------------------------------------------------------------------------------
  // Reloading
  // ------------------------------------------------------------------------------

  lemma ShownValid(prefix: bytes, infos: seq<Info>, k: Kind)
    requires FileName(prefix) && Nameable(infos) && Bounded(infos)
    requires forall i :: 0 <= i < |infos| ==> infos[i].num >= 1 && infos[i].kind == k
    ensures var r := ShownAll(prefix, infos);
            forall i :: 0 <= i < |r| ==> Text.ValidInfo(r[i]) && r[i].kind == KindByte(k)
  {
    var r := ShownAll(prefix, infos);
    forall i | 0 <= i < |r| ensures Text.ValidInfo(r[i]) && r[i].kind == KindByte(k) {
      NameReads(prefix, infos[i].file);
    }
  }

  lemma ShownManifestValid(prefix: bytes, m: Manifest)
    requires FileName(prefix) && Printable(m) && Named(m)
    ensures var r := ShownManifest(prefix, Protocol.Reloaded(m));
            Text.ValidManifest(r) && Text.Infos(r) == Text.Infos(ShownManifest(prefix, m))
  {
    forall i | 0 <= i < |m.history| ensures m.history[i].num >= 1 && m.history[i].kind == Hist {
      assert Obsolete(m, m.history[i]);
    }
    ShownValid(prefix, m.base, Base);
    ShownValid(prefix, m.history, Hist);
    ShownValid(prefix, m.incr, Incr);
    hide Text.ValidInfo, Render, Obsolete;
  }

  /** All lines are within the limit of the loader. */
  predicate LinesFit(infos: seq<Text.Info>)
    requires Text.Numbered(infos)
  {
    forall i :: 0 <= i < |infos| ==> |Text.FormatInfo(infos[i])| <= Text.MAX_LINE
  }

  lemma ShownReadable(prefix: bytes, infos: seq<Info>)
    requires FileName(prefix) && Nameable(infos)
    ensures var r := ShownAll(prefix, infos);
            forall i :: 0 <= i < |r| ==> (Readable(r[i].name) <==> SQUOTE !in prefix || NeedsRepr(prefix))
  {
    var r := ShownAll(prefix, infos);
    forall i | 0 <= i < |r| ensures Readable(r[i].name) <==> SQUOTE !in prefix || NeedsRepr(prefix) {
      NameReads(prefix, infos[i].file);
    }
  }

  lemma AllReadable(prefix: bytes, m: Manifest)
    requires FileName(prefix) && Named(m)
    ensures var infos := Text.Infos(ShownManifest(prefix, m));
            forall i :: 0 <= i < |infos| ==> (Readable(infos[i].name) <==> SQUOTE !in prefix || NeedsRepr(prefix))
  {
    ShownReadable(prefix, m.base);
    ShownReadable(prefix, m.history);
    ShownReadable(prefix, m.incr);
    hide Readable, NeedsRepr, Shown;
  }

  lemma LoadsIff(t: Text.Manifest, infos: seq<Text.Info>, ok: bool)
    requires Text.ValidManifest(t) && infos == Text.Infos(t)
    requires forall i :: 0 <= i < |infos| ==> (Readable(infos[i].name) <==> ok)
    ensures Text.Numbered(infos)
    ensures Text.LoadManifest(Text.FormatAll(infos)) == Text.Ok(t) <==> LinesFit(infos) && ok
  {
    Text.ReloadIff(t);
    assert |infos| > 0;
    hide Readable, Text.FormatInfo, Text.FormatAll, Text.LoadManifest, Text.ValidManifest, Text.Infos;
    if forall i :: 0 <= i < |infos| ==> Text.Survives(infos[i]) {
      assert Text.Survives(infos[0]);
    }
  }

  /** A starting server reads the lists that were printed and the counters of their last files,
      if and only if every line is within the limit and `appendfilename` is printed readably. */
  lemma ReloadsIff(prefix: bytes, m: Manifest)
    requires FileName(prefix) && Printable(m)
    ensures Named(m) && Text.Numbered(Text.Infos(ShownManifest(prefix, m)))
    ensures var lines := Text.Infos(ShownManifest(prefix, m));
            Text.LoadManifest(Text.FormatAll(lines)) == Text.Ok(ShownManifest(prefix, Protocol.Reloaded(m)))
            <==> LinesFit(lines) && (SQUOTE !in prefix || NeedsRepr(prefix))
  {
    ValidNamed(m);
    ShownManifestValid(prefix, m);
    AllReadable(prefix, m);
    hide *;
    LoadsIff(ShownManifest(prefix, Protocol.Reloaded(m)), Text.Infos(ShownManifest(prefix, m)),
             SQUOTE !in prefix || NeedsRepr(prefix));
  }

  lemma ShownSame(prefix: bytes, a: seq<Info>, b: seq<Info>)
    requires Nameable(a) && Nameable(b) && ShownAll(prefix, a) == ShownAll(prefix, b)
    ensures a == b
  {
    assert |a| == |ShownAll(prefix, a)| == |ShownAll(prefix, b)| == |b|;
    forall i | 0 <= i < |a| ensures a[i] == b[i] {
      assert ShownAll(prefix, a)[i] == ShownAll(prefix, b)[i];
      hide Render;
      RenderInjective(prefix, a[i].file, b[i].file);
    }
  }

  /** No other manifest is shown in the same way, so it is the protocol's manifest that comes back. */
  lemma ShownInjective(prefix: bytes, m: Manifest, n: Manifest)
    requires Named(m) && Named(n) && ShownManifest(prefix, m) == ShownManifest(prefix, n)
    ensures m == n
  {
    hide Shown;
    ShownSame(prefix, m.base, n.base);
    ShownSame(prefix, m.history, n.history);
    ShownSame(prefix, m.incr, n.incr);
  }
}
