/** Counting ones: the counter that takes 28 bytes a round, and the BITCOUNT command. */
module BitCount {
  import opened Bits

  // ------------------------------------------------------------------------------
  // Numbers in a byte
  // ------------------------------------------------------------------------------

  function Plus(a: bv8, b: bv8): bv8 {
    a + b
  }

  /** The byte that holds a small number. */
  function Tally(n: nat): bv8 {
    if n == 0 then 0 else Plus(Tally(n - 1), 1)
  }

  lemma PlusOne(a: bv8, b: bv8)
    ensures Plus(a, Plus(b, 1)) == Plus(Plus(a, b), 1)
  {}

  lemma PlusZero(a: bv8)
    ensures Plus(a, 0) == a
  {}

  lemma {:induction false} TallyAdd(n: nat, m: nat)
    ensures Plus(Tally(n), Tally(m)) == Tally(n + m)
  {
    hide Plus;
    if m == 0 {
      PlusZero(Tally(n));
    } else {
      TallyAdd(n, m - 1);
      PlusOne(Tally(n), Tally(m - 1));
      assert Tally(n + m) == Plus(Tally(n + m - 1), 1);
    }
  }

  lemma Small(x: bv8)
    requires x as nat < 255
    ensures x < 255
  {}

  lemma Next(x: bv8)
    requires x < 255
    ensures Plus(x, 1) as nat == x as nat + 1
  {}

  /** No carry is lost up to 255. */
  lemma {:induction false} TallyNat(n: nat)
    requires n <= 255
    ensures Tally(n) as nat == n
  {
    if n > 0 {
      TallyNat(n - 1);
      hide Plus;
      Small(Tally(n - 1));
      Next(Tally(n - 1));
    }
  }

  // ------------------------------------------------------------------------------
  // Four bytes in a word
  // ------------------------------------------------------------------------------

  function Pack(a: bv8, b: bv8, c: bv8, d: bv8): bv32 {
    (a as bv32) | ((b as bv32) << 8) | ((c as bv32) << 16) | ((d as bv32) << 24)
  }

  /** A 32-bit load from a little-endian memory. */
  function Load(s: Bytes, i: nat): bv32
    requires i + 4 <= |s|
  {
    Pack(s[i], s[i + 1], s[i + 2], s[i + 3])
  }

  // The folding steps of the counter.

  function Pairs(x: bv32): bv32 {
    x - ((x >> 1) & 0x55555555)
  }

  function Nibbles(x: bv32): bv32 {
    (x & 0x33333333) + ((x >> 2) & 0x33333333)
  }

  function Octets(x: bv32): bv32 {
    (x + (x >> 4)) & 0x0F0F0F0F
  }

  function Fold(x: bv32): bv32 {
    Octets(Nibbles(Pairs(x)))
  }

  /** The ones of one byte, added up bit by bit. */
  function Sum8(b: bv8): bv8 {
    (b & 1) + ((b >> 1) & 1) + ((b >> 2) & 1) + ((b >> 3) & 1) +
    ((b >> 4) & 1) + ((b >> 5) & 1) + ((b >> 6) & 1) + ((b >> 7) & 1)
  }

  lemma Lane0(a: bv8, b: bv8, c: bv8, d: bv8)
    ensures (Fold(Pack(a, b, c, d)) & 0xff) as bv8 == Sum8(a)
  {}

  lemma Lane1(a: bv8, b: bv8, c: bv8, d: bv8)
    ensures ((Fold(Pack(a, b, c, d)) >> 8) & 0xff) as bv8 == Sum8(b)
  {}

  lemma Lane2(a: bv8, b: bv8, c: bv8, d: bv8)
    ensures ((Fold(Pack(a, b, c, d)) >> 16) & 0xff) as bv8 == Sum8(c)
  {}

  lemma Lane3(a: bv8, b: bv8, c: bv8, d: bv8)
    ensures (Fold(Pack(a, b, c, d)) >> 24) as bv8 == Sum8(d)
  {}

  lemma Lanes(y: bv32, a: bv8, b: bv8, c: bv8, d: bv8)
    requires (y & 0xff) as bv8 == a && ((y >> 8) & 0xff) as bv8 == b && ((y >> 16) & 0xff) as bv8 == c &&
               (y >> 24) as bv8 == d
    ensures y == Pack(a, b, c, d)
  {}

  /** Folding a word counts the ones of each of its bytes in that byte. */
  lemma FoldBytes(a: bv8, b: bv8, c: bv8, d: bv8)
    ensures Fold(Pack(a, b, c, d)) == Pack(Sum8(a), Sum8(b), Sum8(c), Sum8(d))
  {
    hide Fold, Sum8, Pack;
    Lane0(a, b, c, d);
    Lane1(a, b, c, d);
    Lane2(a, b, c, d);
    Lane3(a, b, c, d);
    Lanes(Fold(Pack(a, b, c, d)), Sum8(a), Sum8(b), Sum8(c), Sum8(d));
  }

  function OneBit(b: bv8, k: nat): bv8
    requires k < 8
  {
    (b >> (7 - k)) & 1
  }

  lemma BitTally(b: bv8, k: nat)
    requires k < 8
    ensures OneBit(b, k) == Tally(One(BitOf(b, k)))
  {
    assert Tally(1) == 1;
  }

  function SumFront(b: bv8, m: nat): bv8
    requires m <= 8
  {
    if m == 0 then 0 else Plus(SumFront(b, m - 1), OneBit(b, m - 1))
  }

  lemma {:induction false} SumFrontTally(b: bv8, m: nat)
    requires m <= 8
    ensures SumFront(b, m) == Tally(Front(b, m))
  {
    if m > 0 {
      SumFrontTally(b, m - 1);
      hide Plus, OneBit, Tally, BitOf;
      BitTally(b, m - 1);
      TallyAdd(Front(b, m - 1), One(BitOf(b, m - 1)));
    }
  }

  lemma Sum8Is(b: bv8)
    ensures Sum8(b) == SumFront(b, 8)
  {
    assert SumFront(b, 0) == 0;
    assert SumFront(b, 1) == OneBit(b, 0);
    assert SumFront(b, 2) == SumFront(b, 1) + OneBit(b, 1);
    assert SumFront(b, 3) == SumFront(b, 2) + OneBit(b, 2);
    assert SumFront(b, 4) == SumFront(b, 3) + OneBit(b, 3);
    assert SumFront(b, 5) == SumFront(b, 4) + OneBit(b, 4);
    assert SumFront(b, 6) == SumFront(b, 5) + OneBit(b, 5);
    assert SumFront(b, 7) == SumFront(b, 6) + OneBit(b, 6);
  }

  lemma Sum8Weight(b: bv8)
    ensures Sum8(b) == Tally(Weight(b))
  {
    Sum8Is(b);
    SumFrontTally(b, 8);
  }

  // ------------------------------------------------------------------------------
  // A round of seven words
  // ------------------------------------------------------------------------------

  lemma PackNat(a: bv8, b: bv8, c: bv8, d: bv8)
    requires a <= 8 && b <= 8 && c <= 8 && d <= 8
    ensures Pack(a, b, c, d) as nat == a as nat + 0x100 * (b as nat) + 0x1_0000 * (c as nat) + 0x100_0000 * (d as nat)
  {}

  function Val8(x: bv8): nat {
    x as nat
  }

  function Val32(x: bv32): nat {
    x as nat
  }

  lemma UpToEight(x: bv8)
    requires Val8(x) <= 8
    ensures x <= 8
  {}

  lemma Sum8Nat(b: bv8)
    ensures Val8(Sum8(b)) == Weight(b)
  {
    hide Sum8, Tally, Front;
    Sum8Weight(b);
    TallyNat(Weight(b));
  }

  /** The number that a folded word holds: the ones of its bytes, one byte apart. */
  function Spread(a: nat, b: nat, c: nat, d: nat): nat {
    a + 0x100 * b + 0x1_0000 * c + 0x100_0000 * d
  }

  lemma SpreadAdd(a: nat, b: nat, c: nat, d: nat, e: nat, f: nat, g: nat, h: nat)
    ensures Spread(a, b, c, d) + Spread(e, f, g, h) == Spread(a + e, b + f, c + g, d + h)
  {}

  lemma PackVal(a: bv8, b: bv8, c: bv8, d: bv8)
    requires Val8(a) <= 8 && Val8(b) <= 8 && Val8(c) <= 8 && Val8(d) <= 8
    ensures Val32(Pack(a, b, c, d)) == Spread(Val8(a), Val8(b), Val8(c), Val8(d))
  {
    hide Pack;
    UpToEight(a);
    UpToEight(b);
    UpToEight(c);
    UpToEight(d);
    PackNat(a, b, c, d);
  }

  function Word(s: Bytes, i: nat): nat
    requires i + 4 <= |s|
  {
    Val32(Fold(Load(s, i)))
  }

  lemma FoldedWord(s: Bytes, i: nat)
    requires i + 4 <= |s|
    ensures Word(s, i) == Spread(Weight(s[i]), Weight(s[i + 1]), Weight(s[i + 2]), Weight(s[i + 3]))
  {
    hide Fold, Pack, Sum8, Val8, Val32, Spread;
    FoldBytes(s[i], s[i + 1], s[i + 2], s[i + 3]);
    Sum8Nat(s[i]);
    Sum8Nat(s[i + 1]);
    Sum8Nat(s[i + 2]);
    Sum8Nat(s[i + 3]);
    PackVal(Sum8(s[i]), Sum8(s[i + 1]), Sum8(s[i + 2]), Sum8(s[i + 3]));
  }

  lemma Mod32(x: int, q: int, r: int)
    requires x == 0x1_0000_0000 * q + r && 0 <= r < 0x1_0000_0000
    ensures x % 0x1_0000_0000 == r
  {}

  lemma Div24(x: int, q: int, r: int)
    requires x == 0x100_0000 * q + r && 0 <= r < 0x100_0000
    ensures x / 0x100_0000 == q
  {}

  /** `(x * 0x01010101) >> 24` on 32-bit unsigned integers. */
  function TopByte(x: nat): nat {
    (((x % 0x1_0000_0000) * 0x0101_0101) % 0x1_0000_0000) / 0x100_0000
  }

  /** The multiplication in 32 bits brings the sum of four lanes into the top byte: with at most
      7 * 8 ones a lane the sum is at most 224, so no lane overflows. */
  lemma Gather(a: nat, b: nat, c: nat, d: nat)
    requires a <= 56 && b <= 56 && c <= 56 && d <= 56
    ensures TopByte(Spread(a, b, c, d)) == a + b + c + d
  {
    var s := Spread(a, b, c, d);
    var q := (b + c + d) + 0x100 * (c + d) + 0x1_0000 * d;
    var t := a + 0x100 * (a + b) + 0x1_0000 * (a + b + c);
    var r := t + 0x100_0000 * (a + b + c + d);
    assert s * 0x0101_0101 == 0x1_0000_0000 * q + r;
    Mod32(s * 0x0101_0101, q, r);
    Div24(r, a + b + c + d, t);
  }

  /** The ones of `n` bytes from `i` on. */
  function Weights(s: Bytes, i: nat, n: nat): nat
    requires i + n <= |s|
  {
    if n == 0 then 0 else Weights(s, i, n - 1) + Weight(s[i + n - 1])
  }

  lemma {:induction false} WeightsAre(s: Bytes, i: nat, n: nat)
    requires i + n <= |s|
    ensures Weights(s, i, n) == Ones(s, 8 * i, 8 * (i + n))
  {
    hide Ones, Weight;
    if n == 0 {
      NoOnes(s, 8 * i);
    } else {
      WeightsAre(s, i, n - 1);
      OnesOfByte(s, i + n - 1);
      OnesSplit(s, 8 * i, 8 * (i + n - 1), 8 * (i + n));
    }
  }

  lemma WordIs(s: Bytes, i: nat, k: nat)
    requires i + 4 * k + 4 <= |s|
    ensures Word(s, i + 4 * k) == Spread(W(s, i, k, 0), W(s, i, k, 1), W(s, i, k, 2), W(s, i, k, 3))
  {
    hide Weight, Word, Spread;
    FoldedWord(s, i + 4 * k);
  }

  /** Byte `l` of word `k` of the round at `i`. */
  function W(s: Bytes, i: nat, k: nat, l: nat): (n: nat)
    requires i + 4 * k + l < |s|
    ensures n <= 8
  {
    Weight(s[i + 4 * k + l])
  }

  lemma WeightsFour(s: Bytes, i: nat, k: nat)
    requires i + 4 * k + 4 <= |s|
    ensures Weights(s, i, 4 * k + 4) == Weights(s, i, 4 * k) + W(s, i, k, 0) + W(s, i, k, 1) + W(s, i, k, 2) +
              W(s, i, k, 3)
  {
    hide Weight;
    assert Weights(s, i, 4 * k + 1) == Weights(s, i, 4 * k) + W(s, i, k, 0);
    assert Weights(s, i, 4 * k + 2) == Weights(s, i, 4 * k + 1) + W(s, i, k, 1);
    assert Weights(s, i, 4 * k + 3) == Weights(s, i, 4 * k + 2) + W(s, i, k, 2);
  }

  /** The lanes after `k` words. */
  function LaneSum(s: Bytes, i: nat, k: nat, l: nat): (n: nat)
    requires l < 4 && i + 4 * k <= |s|
    ensures n <= 8 * k
  {
    if k == 0 then 0 else LaneSum(s, i, k - 1, l) + W(s, i, k - 1, l)
  }

  lemma LaneNext(s: Bytes, i: nat, k: nat, l: nat)
    requires l < 4 && 0 < k && i + 4 * k <= |s|
    ensures LaneSum(s, i, k, l) == LaneSum(s, i, k - 1, l) + W(s, i, k - 1, l)
  {}

  function WordSum(s: Bytes, i: nat, k: nat): nat
    requires i + 4 * k <= |s|
  {
    if k == 0 then 0 else WordSum(s, i, k - 1) + Word(s, i + 4 * (k - 1))
  }

  /** The words add up lane by lane, and the lanes add up to the ones of the bytes. */
  predicate Meet(s: Bytes, i: nat, k: nat)
    requires i + 4 * k <= |s|
  {
    && WordSum(s, i, k) == Spread(LaneSum(s, i, k, 0), LaneSum(s, i, k, 1), LaneSum(s, i, k, 2), LaneSum(s, i, k, 3))
    && LaneSum(s, i, k, 0) + LaneSum(s, i, k, 1) + LaneSum(s, i, k, 2) + LaneSum(s, i, k, 3) == Weights(s, i, 4 * k)
  }

  lemma WordNext(s: Bytes, i: nat, k: nat)
    requires 0 < k && i + 4 * k <= |s|
    ensures WordSum(s, i, k) == WordSum(s, i, k - 1) + Word(s, i + 4 * (k - 1))
  {}

  lemma MeetNext(s: Bytes, i: nat, k: nat)
    requires 0 < k && i + 4 * k <= |s| && Meet(s, i, k - 1)
    ensures Meet(s, i, k)
  {
    hide Word, W, Spread, Weights, LaneSum, WordSum;
    LaneNext(s, i, k, 0);
    LaneNext(s, i, k, 1);
    LaneNext(s, i, k, 2);
    LaneNext(s, i, k, 3);
    WordNext(s, i, k);
    WordIs(s, i, k - 1);
    WeightsFour(s, i, k - 1);
    SpreadAdd(LaneSum(s, i, k - 1, 0), LaneSum(s, i, k - 1, 1), LaneSum(s, i, k - 1, 2), LaneSum(s, i, k - 1, 3),
              W(s, i, k - 1, 0), W(s, i, k - 1, 1), W(s, i, k - 1, 2), W(s, i, k - 1, 3));
  }

  lemma {:induction false} SumsMeet(s: Bytes, i: nat, k: nat)
    requires i + 4 * k <= |s|
    ensures Meet(s, i, k)
  {
    hide Meet;
    if k == 0 {
      MeetNothing(s, i, k);
    } else {
      SumsMeet(s, i, k - 1);
      MeetNext(s, i, k);
    }
  }

  lemma MeetNothing(s: Bytes, i: nat, k: nat)
    requires i <= |s| && k == 0
    ensures Meet(s, i, k)
  {
    hide LaneSum, WordSum, Weights, Spread;
    NothingYet(s, i, k, 0);
    NothingYet(s, i, k, 1);
    NothingYet(s, i, k, 2);
    NothingYet(s, i, k, 3);
    NoWeights(s, i, 4 * k);
    SpreadZero(k, k, k, k);
  }

  lemma SpreadZero(a: nat, b: nat, c: nat, d: nat)
    requires a == b == c == d == 0
    ensures Spread(a, b, c, d) == 0
  {}

  lemma NoWeights(s: Bytes, i: nat, n: nat)
    requires i <= |s| && n == 0
    ensures Weights(s, i, n) == 0
  {}

  lemma NothingYet(s: Bytes, i: nat, k: nat, l: nat)
    requires i <= |s| && l < 4 && k == 0
    ensures LaneSum(s, i, k, l) == 0 && WordSum(s, i, k) == 0
  {
    hide W, Word, Weight;
  }

  lemma SevenWords(s: Bytes, p: nat)
    requires p + 28 <= |s|
    ensures WordSum(s, p, 7) == Word(s, p) + Word(s, p + 4) + Word(s, p + 8) + Word(s, p + 12) + Word(s, p + 16) +
                                Word(s, p + 20) + Word(s, p + 24)
  {
    hide Word;
    assert WordSum(s, p, 1) == Word(s, p);
    assert WordSum(s, p, 2) == WordSum(s, p, 1) + Word(s, p + 4);
    assert WordSum(s, p, 3) == WordSum(s, p, 2) + Word(s, p + 8);
    assert WordSum(s, p, 4) == WordSum(s, p, 3) + Word(s, p + 12);
    assert WordSum(s, p, 5) == WordSum(s, p, 4) + Word(s, p + 16);
    assert WordSum(s, p, 6) == WordSum(s, p, 5) + Word(s, p + 20);
  }

  lemma RoundIs(s: Bytes, p: nat, sum: nat)
    requires p + 28 <= |s| && sum == WordSum(s, p, 7)
    ensures TopByte(sum) == Ones(s, 8 * p, 8 * (p + 28))
  {
    hide WordSum, Ones, Weights, LaneSum, Spread, TopByte;
    SumsMeet(s, p, 7);
    Gather(LaneSum(s, p, 7, 0), LaneSum(s, p, 7, 1), LaneSum(s, p, 7, 2), LaneSum(s, p, 7, 3));
    WeightsAre(s, p, 28);
  }

  lemma NextByte(s: Bytes, p: nat)
    requires p < |s|
    ensures Ones(s, 0, 8 * (p + 1)) == Ones(s, 0, 8 * p) + Weight(s[p])
  {
    hide Ones, Weight;
    OnesOfByte(s, p);
    OnesSplit(s, 0, 8 * p, 8 * p + 8);
  }

  lemma NextRound(s: Bytes, p: nat, sum: nat)
    requires p + 28 <= |s|
    requires sum == Word(s, p) + Word(s, p + 4) + Word(s, p + 8) + Word(s, p + 12) + Word(s, p + 16) + Word(s, p + 20) +
               Word(s, p + 24)
    ensures Ones(s, 0, 8 * (p + 28)) == Ones(s, 0, 8 * p) + TopByte(sum)
  {
    hide Ones, Word, WordSum, TopByte;
    SevenWords(s, p);
    RoundIs(s, p, sum);
    OnesSplit(s, 0, 8 * p, 8 * (p + 28));
  }

  /** `redisPopcount` of a buffer whose address is `align` modulo 4. */
  method Popcount(s: Bytes, align: nat) returns (bits: nat)
    ensures bits == Ones(s, 0, 8 * |s|)
  {
    hide Word, Weight, Ones, TopByte;
    bits := 0;
    var p := 0;
    NoOnes(s, 0);
    while (align + p) % 4 != 0 && p < |s|
      invariant p <= |s| && bits == Ones(s, 0, 8 * p)
      decreases |s| - p
    {
      NextByte(s, p);
      bits := bits + Weight(s[p]);
      p := p + 1;
    }
    while |s| - p >= 28
      invariant p <= |s| && bits == Ones(s, 0, 8 * p)
    {
      var sum := Word(s, p) + Word(s, p + 4) + Word(s, p + 8) + Word(s, p + 12) + Word(s, p + 16) + Word(s, p + 20) +
          Word(s, p + 24);
      NextRound(s, p, sum);
      bits := bits + TopByte(sum);
      p := p + 28;
    }
    while p < |s|
      invariant p <= |s| && bits == Ones(s, 0, 8 * p)
    {
      NextByte(s, p);
      bits := bits + Weight(s[p]);
      p := p + 1;
    }
  }

  // ------------------------------------------------------------------------------
  // BITCOUNT
  // ------------------------------------------------------------------------------

  /** Where a range given by `start` begins and one given by `end` stops, in a string of `len`. */
  function Lo(start: int, len: nat): nat {
    if start >= 0 then start else if start + len >= 0 then start + len else 0
  }

  function Hi(end: int, len: nat): int {
    var e := if end >= 0 then end else if end + len >= 0 then end + len else 0;
    if e < len then e else len - 1
  }

  lemma EdgesOffAt(p: Bytes, a: nat, k: nat, b: nat, m: nat)
    requires a < |p| && b < |p| && k < 8 && m < 8 && 8 * a + k <= 8 * b + m
    ensures Ones(p, 8 * a + k, 8 * b + m + 1) ==
            Ones(p, 8 * a, 8 * b + 8) - Weight(And(p[a], FirstMask(k))) - Weight(And(p[b], LastMask(m)))
  {
    hide Ones, Weight, Front, FirstMask, LastMask, And;
    EdgeWeights(p[a], k);
    EdgeWeights(p[b], m);
    OnesFront(p, a, k);
    OnesFront(p, b, m + 1);
    OnesOfByte(p, b);
    OnesSplit(p, 8 * a, 8 * a + k, 8 * b + m + 1);
    OnesSplit(p, 8 * b, 8 * b + m + 1, 8 * b + 8);
    OnesSplit(p, 8 * a, 8 * b + m + 1, 8 * b + 8);
  }

  /** Taking away the ones of the edges leaves the ones of the range, also within one byte. */
  lemma EdgesOff(p: Bytes, lo: nat, hi: nat)
    requires lo <= hi < 8 * |p|
    ensures Ones(p, lo, hi + 1) == Ones(p, 8 * (lo / 8), 8 * (hi / 8) + 8)
                                   - Weight(And(p[lo / 8], FirstMask(lo % 8)))
                                   - Weight(And(p[hi / 8], LastMask(hi % 8)))
  {
    hide Ones, Weight, FirstMask, LastMask, And;
    EdgesOffAt(p, lo / 8, lo % 8, hi / 8, hi % 8);
  }

  lemma EdgeZero(b: bv8, m: bv8)
    ensures m == 0 ==> Weight(And(b, m)) == 0
    ensures Weight(0) == 0
  {
    hide BitOf;
    NoFront(8);
    ZeroAnd(b, m);
  }

  lemma ZeroAnd(b: bv8, m: bv8)
    ensures m == 0 ==> b & m == 0
  {}

  lemma {:induction false} NoFront(m: nat)
    requires m <= 8
    ensures Front(0, m) == 0
  {
    if m > 0 {
      NoFront(m - 1);
      assert !BitOf(0, m - 1);
    }
  }

  lemma PairOnes(a: bv8, b: bv8)
    ensures Ones([a, b], 0, 16) == Weight(a) + Weight(b)
  {
    hide Ones, Weight;
    OnesOfByte([a, b], 0);
    OnesOfByte([a, b], 1);
    OnesSplit([a, b], 0, 8, 16);
  }

  /** The ones of the bytes `first..last`, without those under the masks. */
  method CountMasked(p: Bytes, first: nat, last: nat, firstMask: bv8, lastMask: bv8, align: nat) returns (count: int)
    requires first <= last < |p|
    ensures count == Ones(p, 8 * first, 8 * (last + 1))
                     - Weight(And(p[first], firstMask)) - Weight(And(p[last], lastMask))
  {
    hide Ones, Weight, And;
    count := Popcount(p[first..last + 1], align + first);
    OnesSlice(p, first, last + 1);
    EdgeZero(p[first], firstMask);
    EdgeZero(p[last], lastMask);
    if firstMask != 0 || lastMask != 0 {
      var a, b: bv8 := 0, 0;
      if firstMask != 0 {
        a := And(p[first], firstMask);
      }
      if lastMask != 0 {
        b := And(p[last], lastMask);
      }
      PairOnes(a, b);
      var off := Popcount([a, b], align);
      count := count - off;
    }
  }

  /** What BITCOUNT answers for a range. */
  function RangeOnes(p: Bytes, start: int, end: int, isbit: bool): nat {
    var len := if isbit then 8 * |p| else |p|;
    var lo, hi := Lo(start, len), Hi(end, len);
    if (start < 0 && end < 0 && start > end) || lo > hi then 0
    else if isbit then Ones(p, lo, hi + 1) else Ones(p, 8 * lo, 8 * (hi + 1))
  }

  /** The conversion of negative positions that BITCOUNT and BITPOS share. */
  method Normalize(start: int, end: int, totlen: nat) returns (s: int, e: int)
    ensures s == Lo(start, totlen) && e == Hi(end, totlen)
  {
    s, e := start, end;
    if s < 0 {
      s := totlen + s;
    }
    if e < 0 {
      e := totlen + e;
    }
    if s < 0 {
      s := 0;
    }
    if e < 0 {
      e := 0;
    }
    if e >= totlen {
      e := totlen - 1;
    }
  }

  /** Which positions of a string of `len` are in a range: negative ends count from behind, and an
      end that is still negative then means the first position. */
  lemma RangeIs(start: int, end: int, len: nat, q: nat)
    requires q < len
    ensures Lo(start, len) <= q <= Hi(end, len) <==>
            (if start < 0 then start + len else start) <= q &&
            (q <= (if end < 0 then end + len else end) || (q == 0 && end + len < 0))
  {}

  /** BITCOUNT with a range, in bytes or in bits.  A range of two negative positions in the wrong
      order is empty. */
  method CountRange(p: Bytes, start: int, end: int, isbit: bool, align: nat) returns (count: int)
    ensures count == RangeOnes(p, start, end, isbit)
    ensures start < 0 && end < 0 && start > end ==> count == 0
    ensures !(start < 0 && end < 0 && start > end) && !isbit ==>
              var lo, hi := Lo(start, |p|), Hi(end, |p|);
              count == if lo > hi then 0 else Ones(p, 8 * lo, 8 * hi + 8)
    ensures !(start < 0 && end < 0 && start > end) && isbit ==>
              var lo, hi := Lo(start, 8 * |p|), Hi(end, 8 * |p|);
              count == if lo > hi then 0 else Ones(p, lo, hi + 1)
  {
    hide Ones, Weight, FirstMask, LastMask, And;
    if start < 0 && end < 0 && start > end {
      return 0;
    }
    var totlen := |p|;
    if isbit {
      totlen := 8 * totlen;
    }
    var s, e := Normalize(start, end, totlen);
    if s > e {
      return 0;
    }
    if isbit {
      EdgesOff(p, s, e);
      count := CountMasked(p, s / 8, e / 8, FirstMask(s % 8), LastMask(e % 8), align);
    } else {
      EdgeZero(p[s], 0);
      EdgeZero(p[e], 0);
      count := CountMasked(p, s, e, 0, 0, align);
    }
  }
}
