/** The in-memory manifest of the append-only files and the functions that edit it. */
module AofManifest {
  import opened ByteStrings
  import opened AofCodec

  /** The files of the append-only directory, and the temporary files of a rewrite. */
  datatype File = BaseFile(num: nat, rdb: bool) | IncrFile(num: nat) | TempIncr | TempRewrite(pid: nat)

  datatype Kind = Base | Hist | Incr

  datatype Info = Info(file: File, num: nat, kind: Kind)

  datatype Manifest = Manifest(base: seq<Info>, history: seq<Info>, incr: seq<Info>, baseSeq: nat, incrSeq: nat)

  const EMPTY := Manifest([], [], [], 0, 0)

  // ------------------------------------------------------------------------------
  // The edits
  // ------------------------------------------------------------------------------

  function AsHistory(ai: Info): Info {
    ai.(kind := Hist)
  }

  function AllHistory(infos: seq<Info>): (r: seq<Info>)
    ensures |r| == |infos| && forall i :: 0 <= i < |r| ==> r[i] == AsHistory(infos[i])
  {
    seq(|infos|, i requires 0 <= i < |infos| => AsHistory(infos[i]))
  }

  /** `getNewBaseFileNameAndMarkPreAsHistory`. */
  function NewBase(m: Manifest, rdb: bool): Manifest {
    var n := m.baseSeq + 1;
    m.(history := AllHistory(m.base) + m.history, base := [Info(BaseFile(n, rdb), n, Base)], baseSeq := n)
  }

  /** `getNewIncrAofName`. */
  function NewIncr(m: Manifest): Manifest {
    var n := m.incrSeq + 1;
    m.(incr := m.incr + [Info(IncrFile(n), n, Incr)], incrSeq := n)
  }

  /** How many incr files a finished rewrite made obsolete: all but the one being written. */
  function Rewritten(m: Manifest, open: bool): (k: nat)
    ensures k <= |m.incr|
  {
    if open && |m.incr| > 0 then |m.incr| - 1 else |m.incr|
  }

  /** `markRewrittenIncrAofAsHistory`: the obsolete incr files, in order, in front of the history. */
  function MarkRewritten(m: Manifest, open: bool): Manifest {
    var k := Rewritten(m, open);
    m.(incr := m.incr[k..], history := AllHistory(m.incr[..k]) + m.history)
  }

  /** A manifest object as the server edits it. */
  class ManifestObject {
    var base: seq<Info>
    var history: seq<Info>
    var incr: seq<Info>
    var baseSeq: nat
    var incrSeq: nat
    var dirty: bool

    function View(): Manifest
      reads this
    {
      Manifest(base, history, incr, baseSeq, incrSeq)
    }

    /** `aofManifestDup`. */
    constructor Dup(m: Manifest, dirty: bool)
      ensures View() == m && this.dirty == dirty
    {
      base, history, incr, baseSeq, incrSeq := m.base, m.history, m.incr, m.baseSeq, m.incrSeq;
      this.dirty := dirty;
    }

    method GetNewBase(rdb: bool) returns (f: File)
      requires |base| <= 1
      modifies this
      ensures View() == NewBase(old(View()), rdb) && dirty && f == BaseFile(baseSeq, rdb)
    {
      if |base| == 1 {
        history := [AsHistory(base[0])] + history;
      }
      baseSeq := baseSeq + 1;
      f := BaseFile(baseSeq, rdb);
      base := [Info(f, baseSeq, Base)];
      dirty := true;
    }

    method GetNewIncr() returns (f: File)
      modifies this
      ensures View() == NewIncr(old(View())) && dirty && incr[|incr| - 1].file == f
    {
      incrSeq := incrSeq + 1;
      f := IncrFile(incrSeq);
      incr := incr + [Info(f, incrSeq, Incr)];
      dirty := true;
    }

    /** `getLastIncrAofName`. */
    method GetLastIncr() returns (f: File)
      modifies this
      ensures old(incr) == [] ==> View() == NewIncr(old(View())) && dirty
      ensures old(incr) != [] ==> View() == old(View()) && dirty == old(dirty)
      ensures |incr| > 0 && f == incr[|incr| - 1].file
    {
      if |incr| == 0 {
        f := GetNewIncr();
      } else {
        f := incr[|incr| - 1].file;
      }
    }

    /** The list is walked from its tail; each entry goes to the head of the history. */
    method MarkRewrittenAsHistory(open: bool)
      modifies this
      ensures View() == MarkRewritten(old(View()), open)
      ensures dirty == (old(dirty) || |old(incr)| > 0)
    {
      if |incr| == 0 {
        return;
      }
      var k := if open then |incr| - 1 else |incr|;
      ghost var last := k;
      while k > 0
        invariant 0 <= k <= last <= |old(incr)|
        invariant incr == old(incr)[..k] + old(incr)[last..]
        invariant history == AllHistory(old(incr)[k..last]) + old(history)
        invariant base == old(base) && baseSeq == old(baseSeq) && incrSeq == old(incrSeq) && dirty == old(dirty)
      {
        k := k - 1;
        history := [AsHistory(incr[k])] + history;
        incr := incr[..k] + incr[k + 1..];
        MoveOne(old(incr), k, last, old(history));
      }
      assert old(incr)[0..last] == old(incr)[..last];
      dirty := true;
    }
  }

  /** One more entry moved from the incr list to the head of the history. */
  lemma MoveOne(all: seq<Info>, k: nat, last: nat, history: seq<Info>)
    requires k < last <= |all|
    ensures var now := all[..k + 1] + all[last..];
            now[k] == all[k] && now[..k] + now[k + 1..] == all[..k] + all[last..]
    ensures [AsHistory(all[k])] + (AllHistory(all[k + 1..last]) + history) == AllHistory(all[k..last]) + history
  {
    assert all[k..last] == [all[k]] + all[k + 1..last];
    assert AllHistory(all[k..last]) == [AsHistory(all[k])] + AllHistory(all[k + 1..last]);
  }

  // ------------------------------------------------------------------------------
  // What every edit keeps
  // ------------------------------------------------------------------------------

  /** Types match lists, numbers are positive and those of the names, incr numbers grow up to the
      counter, the base is the latest one, and no history file is also a base or incr file. */
  predicate Valid(m: Manifest) {
    && |m.base| <= 1 && (|m.base| == 0 ==> m.baseSeq == 0)
    && (|m.base| == 1 ==> m.base[0].num == m.baseSeq >= 1 && m.base[0].kind == Base &&
                          m.base[0].file.BaseFile? && m.base[0].file.num == m.baseSeq)
    && (forall i :: 0 <= i < |m.incr| ==> m.incr[i] == Info(IncrFile(m.incr[i].num), m.incr[i].num, Incr))
    && (forall i :: 0 <= i < |m.incr| ==> m.incr[i].num >= 1)
    && (forall i, j :: 0 <= i < j < |m.incr| ==> m.incr[i].num < m.incr[j].num)
    && (|m.incr| > 0 ==> m.incr[|m.incr| - 1].num == m.incrSeq)
    && (forall i :: 0 <= i < |m.history| ==> Obsolete(m, m.history[i]))
  }

  predicate Obsolete(m: Manifest, ai: Info) {
    && ai.kind == Hist
    && match ai.file
       case BaseFile(n, _) => ai.num == n >= 1 && n <= m.baseSeq && (|m.base| == 1 ==> n < m.baseSeq)
       case IncrFile(n) => ai.num == n >= 1 && n <= m.incrSeq && forall i :: 0 <= i < |m.incr| ==> n < m.incr[i].num
       case TempIncr => false
       case TempRewrite(_) => false
  }

  lemma NewBaseValid(m: Manifest, rdb: bool)
    requires Valid(m)
    ensures Valid(NewBase(m, rdb))
  {}

  lemma NewIncrValid(m: Manifest)
    requires Valid(m)
    ensures Valid(NewIncr(m))
  {}

  lemma MarkRewrittenValid(m: Manifest, open: bool)
    requires Valid(m)
    ensures Valid(MarkRewritten(m, open))
  {
    var r := MarkRewritten(m, open);
    var k := Rewritten(m, open);
    forall i | 0 <= i < |r.history| ensures Obsolete(r, r.history[i]) {
      if i < k {
        assert r.history[i] == AsHistory(m.incr[i]);
        forall j | 0 <= j < |r.incr| ensures m.incr[i].num < r.incr[j].num {
          assert r.incr[j] == m.incr[k + j];
        }
      } else {
        assert r.history[i] == m.history[i - k] && Obsolete(m, m.history[i - k]);
        forall j | 0 <= j < |r.incr| && r.history[i].file.IncrFile? ensures r.history[i].file.num < r.incr[j].num {
          assert r.incr[j] == m.incr[k + j];
        }
      }
    }
  }

  /** A finished rewrite of a running log: one new base, the file being written, and in the
      history the rewritten incr files in order, then the old base, then the old history. */
  lemma FinishedRewrite(m: Manifest, rdb: bool)
    requires Valid(m) && |m.incr| > 0
    ensures var r := MarkRewritten(NewBase(m, rdb), true);
            && Valid(r)
            && r.base == [Info(BaseFile(m.baseSeq + 1, rdb), m.baseSeq + 1, Base)]
            && r.incr == [m.incr[|m.incr| - 1]]
            && r.history == AllHistory(m.incr[..|m.incr| - 1]) + AllHistory(m.base) + m.history
  {
    NewBaseValid(m, rdb);
    MarkRewrittenValid(NewBase(m, rdb), true);
  }

  // ------------------------------------------------------------------------------
  // Names
  // ------------------------------------------------------------------------------

  const DOT: byte := 46
  const BASE_SUFFIX: bytes := [46, 98, 97, 115, 101]
  const INCR_SUFFIX: bytes := [46, 105, 110, 99, 114]
  const RDB_SUFFIX: bytes := [46, 114, 100, 98]
  const AOF_SUFFIX: bytes := [46, 97, 111, 102]
  const TEMP_PREFIX: bytes := [116, 101, 109, 112, 45]

  /** The name of a file of the append-only directory; `prefix` is `appendfilename`. */
  function Render(prefix: bytes, f: File): bytes
    requires !f.TempRewrite?
  {
    match f
    case BaseFile(n, rdb) => prefix + [DOT] + Decimal(n) + BASE_SUFFIX + if rdb then RDB_SUFFIX else AOF_SUFFIX
    case IncrFile(n) => prefix + [DOT] + Decimal(n) + INCR_SUFFIX + AOF_SUFFIX
    case TempIncr => TEMP_PREFIX + prefix + INCR_SUFFIX
  }

  /** What follows the prefix and the dot in the name of a numbered file. */
  function Tail(f: File): bytes
    requires f.BaseFile? || f.IncrFile?
  {
    match f
    case BaseFile(n, rdb) => BASE_SUFFIX + if rdb then RDB_SUFFIX else AOF_SUFFIX
    case IncrFile(n) => INCR_SUFFIX + AOF_SUFFIX
  }

  lemma NumberOf(prefix: bytes, f: File)
    requires f.BaseFile? || f.IncrFile?
    ensures var r := Render(prefix, f);
            |r| > |prefix| && Digits(r[|prefix| + 1..], 0) == f.num && r[|r| - 1] != 114 &&
            r == prefix + [DOT] + Decimal(f.num) + Tail(f)
  {
    var r := Render(prefix, f);
    assert r == prefix + [DOT] + Decimal(f.num) + Tail(f);
    assert r[|prefix| + 1..] == Decimal(f.num) + Tail(f);
    DigitsAppend(Decimal(f.num), Tail(f), 0);
    DigitsOfDecimal(f.num);
    assert r[|r| - 1] == Tail(f)[|Tail(f)| - 1];
  }

  /** Different files have different names, so a file is never hit through another's name. */
  lemma RenderInjective(prefix: bytes, f: File, g: File)
    requires !f.TempRewrite? && !g.TempRewrite? && Render(prefix, f) == Render(prefix, g)
    ensures f == g
  {
    if f.TempIncr? || g.TempIncr? {
      if !f.TempIncr? {
        NumberOf(prefix, f);
      }
      if !g.TempIncr? {
        NumberOf(prefix, g);
      }
    } else {
      NumberOf(prefix, f);
      NumberOf(prefix, g);
      var head := prefix + [DOT] + Decimal(f.num);
      assert Render(prefix, f)[|head|..] == Tail(f) && Render(prefix, g)[|head|..] == Tail(g);
      assert Tail(f)[1] == Tail(g)[1];
      assert f.BaseFile? ==> Tail(f)[|BASE_SUFFIX| + 1] == Tail(g)[|BASE_SUFFIX| + 1];
    }
  }

  /** The names: `.N.base.rdb`, `.N.base.aof` and `.N.incr.aof` behind `appendfilename`, and
      `temp-`, `appendfilename`, `.incr`. */
  lemma NameFormat(prefix: bytes, n: nat)
    ensures Render(prefix, BaseFile(n, true)) ==
            prefix + [46] + Decimal(n) + [46, 98, 97, 115, 101, 46, 114, 100, 98]
    ensures Render(prefix, BaseFile(n, false)) ==
            prefix + [46] + Decimal(n) + [46, 98, 97, 115, 101, 46, 97, 111, 102]
    ensures Render(prefix, IncrFile(n)) ==
            prefix + [46] + Decimal(n) + [46, 105, 110, 99, 114, 46, 97, 111, 102]
    ensures Render(prefix, TempIncr) == [116, 101, 109, 112, 45] + prefix + [46, 105, 110, 99, 114]
  {
    hide Decimal;
  }
}
