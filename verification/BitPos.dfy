/** Finding the first bit of a given value: the word-at-a-time search and the BITPOS command. */
module BitPos {
  import opened Bits
  import opened BitCount

  // ------------------------------------------------------------------------------
  // Bits of a 64-bit word, from the top
  // ------------------------------------------------------------------------------

  const TOP: bv64 := 0x8000_0000_0000_0000

  function Half(m: bv64): bv64 {
    m >> 1
  }

  predicate Test(m: bv64, w: bv64) {
    m & w != 0
  }

  /** The mask after `k` shifts to the right. */
  function Probe(k: nat): bv64 {
    if k == 0 then TOP else Half(Probe(k - 1))
  }

  /** Moving the mask down is moving the word up. */
  lemma ByteUp(m: bv64, w: bv64)
    ensures Test(Down8(m), w) == Test(m, Up8(w))
  {}

  function Down8(m: bv64): bv64 {
    m >> 8
  }

  function Up8(w: bv64): bv64 {
    w << 8
  }

  lemma ProbeDown(k: nat)
    ensures Probe(k + 8) == Down8(Probe(k))
  {
    hide Probe;
    ProbeByte(k, Probe(k));
  }

  lemma {:induction false} ProbeZero(k: nat, j: nat)
    requires k <= j && Probe(k) == 0
    ensures Probe(j) == 0
  {
    if k < j {
      ProbeZero(k, j - 1);
    }
  }

  lemma ProbeByte(k: nat, m: bv64)
    requires Probe(k) == m
    ensures Probe(k + 7) == m >> 7 && Probe(k + 8) == m >> 8
  {
    assert Probe(k + 1) == m >> 1;
    assert Probe(k + 2) == m >> 2;
    assert Probe(k + 3) == m >> 3;
    assert Probe(k + 4) == m >> 4;
    assert Probe(k + 5) == m >> 5;
    assert Probe(k + 6) == m >> 6;
    assert Probe(k + 7) == m >> 7;
  }

  lemma LastProbe()
    ensures Probe(63) == 1
  {
    assert Probe(0) == TOP;
    ProbeByte(0, TOP);
    ProbeByte(8, 0x0080_0000_0000_0000);
    ProbeByte(16, 0x0000_8000_0000_0000);
    ProbeByte(24, 0x0000_0080_0000_0000);
    ProbeByte(32, 0x0000_0000_8000_0000);
    ProbeByte(40, 0x0000_0000_0080_0000);
    ProbeByte(48, 0x0000_0000_0000_8000);
    ProbeByte(56, 0x0000_0000_0000_0080);
  }

  /** The mask is not exhausted before all 64 bits have been looked at. */
  lemma ProbeLasts(k: nat)
    requires k < 64
    ensures Probe(k) != 0
  {
    hide Probe;
    LastProbe();
    if Probe(k) == 0 {
      ProbeZero(k, 63);
    }
  }

  function TopByteOf(w: bv64): bv8 {
    (w >> 56) as bv8
  }

  function TopMask(k: nat): bv64
    requires k < 8
  {
    if k == 0 then TOP
    else if k == 1 then 0x4000_0000_0000_0000
    else if k == 2 then 0x2000_0000_0000_0000
    else if k == 3 then 0x1000_0000_0000_0000
    else if k == 4 then 0x0800_0000_0000_0000
    else if k == 5 then 0x0400_0000_0000_0000
    else if k == 6 then 0x0200_0000_0000_0000
    else 0x0100_0000_0000_0000
  }

  lemma {:induction false} ProbeIs(k: nat)
    requires k < 8
    ensures Probe(k) == TopMask(k)
  {
    if k > 0 {
      ProbeIs(k - 1);
    }
  }

  lemma MaskBit(w: bv64, k: nat)
    requires k < 8
    ensures Test(TopMask(k), w) == BitOf(TopByteOf(w), k)
  {
    if k == 0 {
    } else if k == 1 {
    } else if k == 2 {
    } else if k == 3 {
    } else if k == 4 {
    } else if k == 5 {
    } else if k == 6 {
    } else {
    }
  }

  lemma TopBits(w: bv64, k: nat)
    requires k < 8
    ensures Test(Probe(k), w) == BitOf(TopByteOf(w), k)
  {
    hide Test, Probe, BitOf, TopByteOf, TopMask;
    ProbeIs(k);
    MaskBit(w, k);
  }

  // ------------------------------------------------------------------------------
  // Eight bytes in a word, the first one on top
  // ------------------------------------------------------------------------------

  function Big(b0: bv8, b1: bv8, b2: bv8, b3: bv8, b4: bv8, b5: bv8, b6: bv8, b7: bv8): bv64 {
    ((b0 as bv64) << 56) | ((b1 as bv64) << 48) | ((b2 as bv64) << 40) | ((b3 as bv64) << 32) |
    ((b4 as bv64) << 24) | ((b5 as bv64) << 16) | ((b6 as bv64) << 8) | (b7 as bv64)
  }

  lemma BigTop(b0: bv8, b1: bv8, b2: bv8, b3: bv8, b4: bv8, b5: bv8, b6: bv8, b7: bv8)
    ensures TopByteOf(Big(b0, b1, b2, b3, b4, b5, b6, b7)) == b0
  {}

  lemma BigShift(b0: bv8, b1: bv8, b2: bv8, b3: bv8, b4: bv8, b5: bv8, b6: bv8, b7: bv8)
    ensures Up8(Big(b0, b1, b2, b3, b4, b5, b6, b7)) == Big(b1, b2, b3, b4, b5, b6, b7, 0)
  {}

  function WordOf(s: Bytes): bv64
    requires |s| == 8
  {
    Big(s[0], s[1], s[2], s[3], s[4], s[5], s[6], s[7])
  }

  /** The bits of the word are the bits of the bytes, in order. */
  lemma {:induction false} WordBits(s: Bytes, k: nat)
    requires |s| == 8 && k < 64
    ensures Test(Probe(k), WordOf(s)) == Bit(s, k)
    decreases k
  {
    hide Test, Probe, BitOf, TopByteOf, Big, Down8, Up8;
    if k < 8 {
      TopBits(WordOf(s), k);
      BigTop(s[0], s[1], s[2], s[3], s[4], s[5], s[6], s[7]);
    } else {
      var t: Bytes := s[1..] + [0];
      ProbeDown(k - 8);
      ByteUp(Probe(k - 8), WordOf(s));
      BigShift(s[0], s[1], s[2], s[3], s[4], s[5], s[6], s[7]);
      assert WordOf(t) == Up8(WordOf(s));
      WordBits(t, k - 8);
      assert t[(k - 8) / 8] == s[k / 8];
    }
  }

  /** `word <<= 8; word |= byte`. */
  function Append(w: bv64, b: bv8): bv64 {
    (w << 8) | (b as bv64)
  }

  lemma AppendBig(b0: bv8, b1: bv8, b2: bv8, b3: bv8, b4: bv8, b5: bv8, b6: bv8, b7: bv8, b: bv8)
    ensures Append(Big(b0, b1, b2, b3, b4, b5, b6, b7), b) == Big(b1, b2, b3, b4, b5, b6, b7, b)
  {}

  function Loaded(t: Bytes, j: nat): bv64
    requires j <= |t|
  {
    if j == 0 then 0 else Append(Loaded(t, j - 1), t[j - 1])
  }

  lemma BigZero()
    ensures Big(0, 0, 0, 0, 0, 0, 0, 0) == 0
  {}

  lemma LoadedNext(t: Bytes, j: nat)
    requires j < |t|
    ensures Loaded(t, j + 1) == Append(Loaded(t, j), t[j])
  {}

  lemma LoadedNone(t: Bytes)
    ensures Loaded(t, 0) == 0
  {}

  /** The loading loop puts the first byte on top. */
  lemma LoadedAll(t: Bytes)
    requires |t| == 8
    ensures Loaded(t, 8) == WordOf(t)
  {
    hide Append, Big, Loaded;
    BigZero();
    LoadedNone(t);
    LoadedNext(t, 0);
    AppendBig(0, 0, 0, 0, 0, 0, 0, 0, t[0]);
    LoadedNext(t, 1);
    AppendBig(0, 0, 0, 0, 0, 0, 0, t[0], t[1]);
    LoadedNext(t, 2);
    AppendBig(0, 0, 0, 0, 0, 0, t[0], t[1], t[2]);
    LoadedNext(t, 3);
    AppendBig(0, 0, 0, 0, 0, t[0], t[1], t[2], t[3]);
    LoadedNext(t, 4);
    AppendBig(0, 0, 0, 0, t[0], t[1], t[2], t[3], t[4]);
    LoadedNext(t, 5);
    AppendBig(0, 0, 0, t[0], t[1], t[2], t[3], t[4], t[5]);
    LoadedNext(t, 6);
    AppendBig(0, 0, t[0], t[1], t[2], t[3], t[4], t[5], t[6]);
    LoadedNext(t, 7);
    AppendBig(0, t[0], t[1], t[2], t[3], t[4], t[5], t[6], t[7]);
  }

  const ALL_ONES: bv64 := 0xffff_ffff_ffff_ffff

  lemma BigSame(b0: bv8, b1: bv8, b2: bv8, b3: bv8, b4: bv8, b5: bv8, b6: bv8, b7: bv8)
    ensures Big(b0, b1, b2, b3, b4, b5, b6, b7) == 0 <==>
            b0 == 0 && b1 == 0 && b2 == 0 && b3 == 0 && b4 == 0 && b5 == 0 && b6 == 0 && b7 == 0
    ensures Big(b0, b1, b2, b3, b4, b5, b6, b7) == ALL_ONES <==>
            b0 == 0xff && b1 == 0xff && b2 == 0xff && b3 == 0xff && b4 == 0xff && b5 == 0xff && b6 == 0xff && b7 == 0xff
  {}

  // ------------------------------------------------------------------------------
  // The search
  // ------------------------------------------------------------------------------

  /** None of the first `n` bits is `bit`. */
  ghost predicate Absent(s: Bytes, bit: bool, n: nat)
    requires n <= 8 * |s|
  {
    forall i :: 0 <= i < n ==> Bit(s, i) != bit
  }

  /** `pos` is the first position of `bit`; the string counts as followed by zeros, and -1 says
      that there is no one. */
  ghost predicate First(s: Bytes, bit: bool, pos: int) {
    if pos == -1 then bit && Absent(s, bit, 8 * |s|)
    else 0 <= pos <= 8 * |s| && Absent(s, bit, pos) && if pos < 8 * |s| then Bit(s, pos) == bit else !bit
  }

  function SkipByte(bit: bool): bv8 {
    if bit then 0 else 0xff
  }

  lemma SkipBits(k: nat)
    requires k < 8
    ensures !BitOf(0, k) && BitOf(0xff, k)
  {}

  lemma SkipAbsent(s: Bytes, bit: bool, c: nat)
    requires c <= |s| && forall k :: 0 <= k < c ==> s[k] == SkipByte(bit)
    ensures Absent(s, bit, 8 * c)
  {
    forall i | 0 <= i < 8 * c ensures Bit(s, i) != bit {
      SkipBits(i % 8);
      assert s[i / 8] == SkipByte(bit);
    }
  }

  /** A byte that is not to be skipped has the bit. */
  lemma ByteHas(b: bv8, bit: bool) returns (k: nat)
    requires b != SkipByte(bit)
    ensures k < 8 && BitOf(b, k) == bit
  {
    if BitOf(b, 0) == bit {
      k := 0;
    } else if BitOf(b, 1) == bit {
      k := 1;
    } else if BitOf(b, 2) == bit {
      k := 2;
    } else if BitOf(b, 3) == bit {
      k := 3;
    } else if BitOf(b, 4) == bit {
      k := 4;
    } else if BitOf(b, 5) == bit {
      k := 5;
    } else if BitOf(b, 6) == bit {
      k := 6;
    } else {
      k := 7;
    }
  }

  /** Eight bytes from `c` on, padded with zeros on the right. */
  function Padded(s: Bytes, c: nat): (t: Bytes)
    ensures |t| == 8 && forall i :: 0 <= i < 8 ==> t[i] == if c + i < |s| then s[c + i] else 0
  {
    seq(8, i requires 0 <= i < 8 => if c + i < |s| then s[c + i] else 0)
  }

  lemma PaddedBit(s: Bytes, c: nat, i: nat)
    requires c <= |s| && i < 64
    ensures 8 * c + i < 8 * |s| ==> Bit(Padded(s, c), i) == Bit(s, 8 * c + i)
    ensures 8 * c + i >= 8 * |s| ==> !Bit(Padded(s, c), i)
  {
    hide BitOf;
    assert (8 * c + i) / 8 == c + i / 8 && (8 * c + i) % 8 == i % 8;
    SkipBits(i % 8);
  }

  /** The first bit of the padded word is the first bit of the rest of the string. */
  lemma FirstOfWord(s: Bytes, bit: bool, c: nat, f: nat)
    requires c <= |s| && Absent(s, bit, 8 * c) && f < 64 && Bit(Padded(s, c), f) == bit
    requires forall i :: 0 <= i < f ==> Bit(Padded(s, c), i) != bit
    requires bit || f <= 8 * (|s| - c)
    ensures First(s, bit, 8 * c + f)
  {
    hide Bit;
    PaddedBit(s, c, f);
    forall i | 0 <= i < 8 * c + f && i < 8 * |s| ensures Bit(s, i) != bit {
      if i >= 8 * c {
        PaddedBit(s, c, i - 8 * c);
      }
    }
  }

  ghost predicate Skipped(s: Bytes, bit: bool, c: nat) {
    c <= |s| && forall k :: 0 <= k < c ==> s[k] == SkipByte(bit)
  }

  /** Byte by byte up to an address that is a multiple of eight. */
  method SkipBytes(s: Bytes, align: nat, bit: bool) returns (c: nat, found: bool)
    ensures Skipped(s, bit, c) && (found ==> c < |s| && s[c] != SkipByte(bit))
  {
    var skipval := SkipByte(bit);
    c, found := 0, false;
    while (align + c) % 8 != 0 && c < |s|
      invariant Skipped(s, bit, c) && !found
      decreases |s| - c
    {
      if s[c] != skipval {
        return c, true;
      }
      c := c + 1;
    }
  }

  lemma WordSkips(s: Bytes, bit: bool, c: nat)
    requires c + 8 <= |s|
    ensures WordOf(s[c..c + 8]) == (if bit then 0 else ALL_ONES) <==>
            forall k :: c <= k < c + 8 ==> s[k] == SkipByte(bit)
  {
    var t := s[c..c + 8];
    hide Big;
    BigSame(t[0], t[1], t[2], t[3], t[4], t[5], t[6], t[7]);
    if forall k :: c <= k < c + 8 ==> s[k] == SkipByte(bit) {
      assert forall i :: 0 <= i < 8 ==> t[i] == s[c + i];
    } else {
      var k :| c <= k < c + 8 && s[k] != SkipByte(bit);
      assert t[k - c] == s[k];
    }
    if WordOf(t) == (if bit then 0 else ALL_ONES) {
      forall k | c <= k < c + 8 ensures s[k] == SkipByte(bit) {
        assert t[k - c] == s[k];
      }
    }
  }

  /** Word by word; comparing with all zeros or all ones does not depend on the byte order. */
  method SkipWords(s: Bytes, from: nat, bit: bool) returns (c: nat)
    requires Skipped(s, bit, from)
    ensures from <= c && Skipped(s, bit, c)
    ensures Stopped(s, bit, c)
  {
    hide WordOf;
    c := from;
    var skipval := if bit then 0 else ALL_ONES;
    while |s| - c >= 8
      invariant from <= c && Skipped(s, bit, c)
    {
      WordSkips(s, bit, c);
      if WordOf(s[c..c + 8]) != skipval {
        return;
      }
      c := c + 8;
    }
  }

  /** The rest of the string, or its next eight bytes, with the first byte on top. */
  method LoadWord(s: Bytes, from: nat) returns (word: bv64)
    requires from <= |s|
    ensures word == WordOf(Padded(s, from))
  {
    ghost var t := Padded(s, from);
    hide Append, WordOf;
    word := 0;
    var c := from;
    LoadedNone(t);
    for j := 0 to 8
      invariant c == (if from + j < |s| then from + j else |s|) && word == Loaded(t, j)
    {
      LoadedNext(t, j);
      var byte: bv8 := 0;
      if c < |s| {
        byte := s[c];
        c := c + 1;
      }
      word := Append(word, byte);
    }
    LoadedAll(t);
  }

  /** From the top bit down; `last` is some position with the bit. */
  method Scan(word: bv64, bit: bool, ghost t: Bytes, ghost last: nat) returns (f: nat)
    requires |t| == 8 && word == WordOf(t) && last < 64 && Bit(t, last) == bit
    ensures f < 64 && Bit(t, f) == bit && forall i :: 0 <= i < f ==> Bit(t, i) != bit
  {
    hide Bit, Test, Half, WordOf;
    var one := TOP;
    f := 0;
    while one != 0
      invariant f <= last && one == Probe(f)
      invariant forall i :: 0 <= i < f ==> Bit(t, i) != bit
      decreases last - f
    {
      WordBits(t, f);
      if Test(one, word) == bit {
        return;
      }
      one := Half(one);
      f := f + 1;
    }
    ProbeLasts(f);
    assert false;
  }

  /** Where to look at least: a place of the padded word that has the bit. */
  lemma SomeBit(s: Bytes, bit: bool, c: nat, word: bv64) returns (f: nat)
    requires c <= |s| && word == WordOf(Padded(s, c)) && !(bit && word == 0)
    requires Stopped(s, bit, c)
    ensures f < 64 && Bit(Padded(s, c), f) == bit && (bit || f <= 8 * (|s| - c))
  {
    var t := Padded(s, c);
    hide BitOf, Big;
    if !bit && |s| - c < 8 {
      f := 8 * (|s| - c);
      PaddedBit(s, c, f);
    } else {
      var k: nat;
      if bit {
        k := NonZeroByte(t);
      } else {
        var m :| c <= m < c + 8 <= |s| && s[m] != SkipByte(bit);
        k := m - c;
      }
      var j := ByteHas(t[k], bit);
      f := 8 * k + j;
      assert f / 8 == k && f % 8 == j;
    }
  }

  lemma NonZeroByte(t: Bytes) returns (k: nat)
    requires |t| == 8 && WordOf(t) != 0
    ensures k < 8 && t[k] != 0
  {
    BigSame(t[0], t[1], t[2], t[3], t[4], t[5], t[6], t[7]);
    k :| 0 <= k < 8 && t[k] != 0;
  }

  /** Whether the next eight bytes are all there and not all to be skipped, or are cut short. */
  ghost predicate Stopped(s: Bytes, bit: bool, c: nat) {
    |s| - c < 8 || exists k :: c <= k < c + 8 <= |s| && s[k] != SkipByte(bit)
  }

  lemma NoneLeft(s: Bytes, c: nat)
    requires Skipped(s, true, c) && WordOf(Padded(s, c)) == 0 && Stopped(s, true, c)
    ensures First(s, true, -1)
  {
    var t := Padded(s, c);
    hide Big, Bit;
    BigSame(t[0], t[1], t[2], t[3], t[4], t[5], t[6], t[7]);
    assert forall i :: 0 <= i < 8 ==> t[i] == 0;
    forall k | c <= k < |s| && k < c + 8 ensures s[k] == 0 {
      assert t[k - c] == s[k];
    }
    SkipAbsent(s, true, |s|);
  }

  /** `redisBitpos` of a buffer whose address is `align` modulo 8. */
  method Bitpos(s: Bytes, align: nat, bit: bool) returns (pos: int)
    ensures First(s, bit, pos)
  {
    hide WordOf, Bit, Padded, SkipByte;
    var c, found := SkipBytes(s, align, bit);
    if !found {
      c := SkipWords(s, c, bit);
    }
    assert Stopped(s, bit, c) by {
      if found && |s| - c >= 8 {
        assert c <= c < c + 8 <= |s| && s[c] != SkipByte(bit);
      }
    }
    SkipAbsent(s, bit, c);
    var word := LoadWord(s, c);
    if bit && word == 0 {
      NoneLeft(s, c);
      return -1;
    }
    ghost var last := SomeBit(s, bit, c, word);
    var f := Scan(word, bit, Padded(s, c), last);
    FirstOfWord(s, bit, c, f);
    pos := 8 * c + f;
  }

  // ------------------------------------------------------------------------------
  // BITPOS
  // ------------------------------------------------------------------------------

  /** A byte whose bits under the mask cannot be what is looked for. */
  function Hush(b: bv8, mask: bv8, bit: bool): bv8 {
    if bit then b & !mask else b | mask
  }

  lemma HushFirst(b: bv8, k: nat, bit: bool, j: nat)
    requires k < 8 && j < 8
    ensures BitOf(Hush(b, FirstMask(k), bit), j) == if j < k then !bit else BitOf(b, j)
  {}

  lemma HushLast(b: bv8, m: nat, bit: bool, j: nat)
    requires m < 8 && j < 8
    ensures BitOf(Hush(b, LastMask(m), bit), j) == if j > m then !bit else BitOf(b, j)
  {}

  lemma NoMask(k: nat)
    requires k < 8
    ensures FirstMask(k) == 0 <==> k == 0
    ensures LastMask(k) == 0 <==> k == 7
  {}

  /** No position of the range `a..b` before `x` has the bit. */
  ghost predicate Clear(p: Bytes, bit: bool, a: nat, b: nat, x: nat) {
    forall i :: a <= i < b && i < x && i < 8 * |p| ==> Bit(p, i) != bit
  }

  /** `t` is the part of the string from byte `start` on, hushed outside the range. */
  ghost predicate PartOf(t: Bytes, p: Bytes, start: nat, bit: bool, a: nat, b: nat) {
    && start + |t| <= |p|
    && forall i :: 0 <= i < 8 * |t| ==>
         Bit(t, i) == if a <= 8 * start + i < b then Bit(p, 8 * start + i) else !bit
  }

  /** What a search of such a part has found. */
  ghost predicate Stage(p: Bytes, bit: bool, a: nat, b: nat, start: nat, n: nat, pos: int) {
    && start + n <= |p|
    && (if pos == -1 then bit && Clear(p, bit, a, b, 8 * (start + n))
        else if pos == 8 * n then !bit && Clear(p, bit, a, b, 8 * (start + n))
        else
          && 0 <= pos < 8 * n && a <= 8 * start + pos < b && Bit(p, 8 * start + pos) == bit
          && Clear(p, bit, a, b, 8 * start + pos))
  }

  lemma StageFound(p: Bytes, bit: bool, a: nat, b: nat, start: nat, t: Bytes, pos: int)
    requires PartOf(t, p, start, bit, a, b) && First(t, bit, pos) && Clear(p, bit, a, b, 8 * start)
    ensures Stage(p, bit, a, b, start, |t|, pos)
  {
    hide Bit;
    var n := if pos == -1 then 8 * |t| else pos;
    forall i | a <= i < b && i < 8 * start + n ensures Bit(p, i) != bit {
      if i >= 8 * start {
        assert Bit(t, i - 8 * start) != bit;
      }
    }
  }

  lemma OneBytePart(p: Bytes, start: nat, c: bv8, bit: bool, a: nat, b: nat)
    requires start < |p|
    requires forall j :: 0 <= j < 8 ==> BitOf(c, j) == if a <= 8 * start + j < b then BitOf(p[start], j) else !bit
    ensures PartOf([c], p, start, bit, a, b)
  {
    hide BitOf;
    forall i | 0 <= i < 8 ensures Bit([c], i) == if a <= 8 * start + i < b then Bit(p, 8 * start + i) else !bit {
      assert (8 * start + i) / 8 == start && (8 * start + i) % 8 == i;
    }
  }

  lemma MiddlePart(p: Bytes, start: nat, n: nat, bit: bool, a: nat, b: nat)
    requires start + n <= |p| && a <= 8 * start && 8 * (start + n) <= b
    ensures PartOf(p[start..start + n], p, start, bit, a, b)
  {
    hide Bit;
    var t := p[start..start + n];
    forall i | 0 <= i < 8 * n ensures Bit(t, i) == Bit(p, 8 * start + i) {
      BitSlice(p, start, start + n, i);
    }
  }

  /** The first byte, when the range does not start at its first bit. */
  method FirstEdge(p: Bytes, first: nat, last: nat, k: nat, m: nat, bit: bool) returns (pos: int)
    requires first <= last < |p| && k < 8 && m < 8 && 8 * first + k <= 8 * last + m
    ensures Stage(p, bit, 8 * first + k, 8 * last + m + 1, first, 1, pos)
  {
    hide BitOf, FirstMask, LastMask, Hush;
    var tmp := Hush(p[first], FirstMask(k), bit);
    NoMask(m);
    if LastMask(m) != 0 && first == last {
      tmp := Hush(tmp, LastMask(m), bit);
    }
    forall j | 0 <= j < 8
      ensures BitOf(tmp, j) == if k <= j && 8 * first + j <= 8 * last + m then BitOf(p[first], j) else !bit
    {
      HushFirst(p[first], k, bit, j);
      HushLast(Hush(p[first], FirstMask(k), bit), m, bit, j);
    }
    OneBytePart(p, first, tmp, bit, 8 * first + k, 8 * last + m + 1);
    pos := Bitpos([tmp], 0, bit);
    StageFound(p, bit, 8 * first + k, 8 * last + m + 1, first, [tmp], pos);
  }

  /** The last byte, when the range does not end at its last bit. */
  method LastEdge(p: Bytes, ghost a: nat, last: nat, m: nat, bit: bool) returns (pos: int)
    requires a <= 8 * last && last < |p| && m < 8 && Clear(p, bit, a, 8 * last + m + 1, 8 * last)
    ensures Stage(p, bit, a, 8 * last + m + 1, last, 1, pos)
  {
    hide BitOf, LastMask, Hush;
    var tmp := Hush(p[last], LastMask(m), bit);
    forall j | 0 <= j < 8 ensures BitOf(tmp, j) == if j <= m then BitOf(p[last], j) else !bit {
      HushLast(p[last], m, bit, j);
    }
    OneBytePart(p, last, tmp, bit, a, 8 * last + m + 1);
    pos := Bitpos([tmp], 0, bit);
    StageFound(p, bit, a, 8 * last + m + 1, last, [tmp], pos);
  }

  method Middle(p: Bytes, ghost a: nat, ghost b: nat, start: nat, n: nat, bit: bool, align: nat) returns (pos: int)
    requires start + n <= |p| && a <= 8 * start && 8 * (start + n) <= b && Clear(p, bit, a, b, 8 * start)
    ensures Stage(p, bit, a, b, start, n, pos)
  {
    MiddlePart(p, start, n, bit, a, b);
    pos := Bitpos(p[start..start + n], align + start, bit);
    StageFound(p, bit, a, b, start, p[start..start + n], pos);
  }

  /** The three parts of the search: first byte, whole bytes, last byte.  `bytes` are still left
      from byte `start` on when the search ends at `pos`. */
  method PosMasked(p: Bytes, first: nat, last: nat, k: nat, m: nat, bit: bool, align: nat)
    returns (pos: int, start: nat, bytes: nat, ghost n: nat)
    requires first <= last < |p| && k < 8 && m < 8 && 8 * first + k <= 8 * last + m
    ensures start + bytes == last + 1 && 0 < bytes
    ensures 0 < n <= bytes && Stage(p, bit, 8 * first + k, 8 * last + m + 1, start, n, pos)
    ensures n < bytes ==> pos != -1 && pos != 8 * n
  {
    hide Stage, FirstMask, LastMask;
    NoMask(k);
    NoMask(m);
    ghost var a, b := 8 * first + k, 8 * last + m + 1;
    start, bytes := first, last - first + 1;
    assert Clear(p, bit, a, b, 8 * first);
    if FirstMask(k) != 0 {
      pos := FirstEdge(p, first, last, k, m, bit);
      n := 1;
      if bytes == 1 || (pos != -1 && pos != 8) {
        return;
      }
      StageClear(p, bit, a, b, start, 1, pos);
      start, bytes := start + 1, bytes - 1;
    }
    var curbytes := bytes - if LastMask(m) != 0 then 1 else 0;
    if curbytes > 0 {
      pos := Middle(p, a, b, start, curbytes, bit, align);
      n := curbytes;
      if bytes == curbytes || (pos != -1 && pos != 8 * curbytes) {
        return;
      }
      StageClear(p, bit, a, b, start, curbytes, pos);
      start, bytes := start + curbytes, bytes - curbytes;
    }
    pos := LastEdge(p, a, last, m, bit);
    n := 1;
  }

  lemma StageClear(p: Bytes, bit: bool, a: nat, b: nat, start: nat, n: nat, pos: int)
    requires Stage(p, bit, a, b, start, n, pos) && (pos == -1 || pos == 8 * n)
    ensures Clear(p, bit, a, b, 8 * (start + n))
  {}

  /** What BITPOS has to answer about the positions `a..b`: the least one with the bit; if there
      is none, -1 for a one or for an explicit end, and else the position after the range. */
  ghost predicate Answer(p: Bytes, bit: bool, a: nat, b: nat, endGiven: bool, r: int)
    requires a <= b <= 8 * |p|
  {
    if r == -1 then (bit || endGiven) && Clear(p, bit, a, b, b)
    else if r == b then !bit && !endGiven && Clear(p, bit, a, b, b)
    else a <= r < b && Bit(p, r) == bit && Clear(p, bit, a, b, r)
  }

  lemma AnswerFrom(p: Bytes, bit: bool, a: nat, b: nat, start: nat, n: nat, bytes: nat, pos: int, endGiven: bool)
    requires a <= b <= 8 * |p| && n <= bytes && Stage(p, bit, a, b, start, n, pos) &&
               (n < bytes ==> pos != -1 && pos != 8 * n)
    requires b <= 8 * (start + bytes) && 0 < n && (!endGiven ==> b == 8 * (start + bytes))
    ensures var r := if endGiven && !bit && pos == 8 * bytes then -1 else if pos != -1 then pos + 8 * start else pos;
            Answer(p, bit, a, b, endGiven, r)
  {
    hide Bit;
  }

  /** BITPOS with a range in bytes or in bits; without an explicit end it goes to the last byte. */
  method PosRange(p: Bytes, bit: bool, start: int, end: int, endGiven: bool, isbit: bool, align: nat) returns (r: int)
    requires (isbit ==> endGiven) && (!endGiven ==> end == |p| - 1)
    ensures var unit := if isbit then 1 else 8;
            var len := |p| * 8 / unit;
            var lo, hi := Lo(start, len), Hi(end, len);
            if lo > hi then r == -1 else Answer(p, bit, unit * lo, unit * (hi + 1), endGiven, r)
  {
    hide Answer;
    var totlen := |p|;
    if isbit {
      totlen := 8 * totlen;
    }
    var s, e := Normalize(start, end, totlen);
    if s > e {
      return -1;
    }
    if isbit {
      r := PosFinish(p, s / 8, e / 8, s % 8, e % 8, bit, endGiven, align);
    } else {
      r := PosFinish(p, s, e, 0, 7, bit, endGiven, align);
    }
  }

  method PosFinish(p: Bytes, first: nat, last: nat, k: nat, m: nat, bit: bool, endGiven: bool, align: nat)
    returns (r: int)
    requires first <= last < |p| && k < 8 && m < 8 && 8 * first + k <= 8 * last + m && (!endGiven ==> m == 7)
    ensures Answer(p, bit, 8 * first + k, 8 * last + m + 1, endGiven, r)
  {
    hide Stage, Answer;
    var pos, start, bytes, n := PosMasked(p, first, last, k, m, bit, align);
    AnswerFrom(p, bit, 8 * first + k, 8 * last + m + 1, start, n, bytes, pos, endGiven);
    if endGiven && !bit && pos == 8 * bytes {
      return -1;
    }
    if pos != -1 {
      pos := pos + 8 * start;
    }
    r := pos;
  }
}
