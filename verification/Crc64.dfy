/** CRC-64 (Jones polynomial): the bit-by-bit definition, the slice-by-8 table
    forms for little- and big-endian machines, and the proof that they agree.

    The argument is linear algebra over GF(2).  `Xor` is the addition of the
    64-dimensional space of registers, `Clock` (one shift of the reflected register)
    is a linear map on it, and a table entry is a power of that map applied to one
    byte.  Proofs hide the machine operations and use their algebraic laws; facts about
    machine operations are stated on named operands so that each stays small. */
module Crc64 {

  const POLY: bv64 := 0xad93d23594c935a9
  const REFLECTED_POLY: bv64 := 0x95ac9329ac4bc9b5

  // ------------------------------------------------------------------------------
  // The vector space of 64-bit registers
  // ------------------------------------------------------------------------------

  function Xor(x: bv64, y: bv64): bv64 { x ^ y }

  lemma XorIs(x: bv64, y: bv64)
    ensures Xor(x, y) == x ^ y
  {}

  lemma XorComm(x: bv64, y: bv64)
    ensures Xor(x, y) == Xor(y, x)
  {}

  lemma XorZero(x: bv64)
    ensures Xor(x, 0) == x && Xor(0, x) == x
  {}

  lemma XorLeft(x: bv64, y: bv64, z: bv64, a: bv64)
    requires a == x ^ y
    ensures Xor(a, z) == (x ^ y) ^ z
  {}

  lemma XorRight(x: bv64, y: bv64, z: bv64, b: bv64)
    requires b == y ^ z
    ensures Xor(x, b) == (x ^ y) ^ z
  {}

  lemma XorAssoc(x: bv64, y: bv64, z: bv64)
    ensures Xor(Xor(x, y), z) == Xor(x, Xor(y, z))
  {
    hide Xor;
    XorIs(x, y);
    XorIs(y, z);
    XorLeft(x, y, z, Xor(x, y));
    XorRight(x, y, z, Xor(y, z));
  }

  lemma XorSwap(a: bv64, b: bv64, c: bv64, d: bv64)
    ensures Xor(Xor(a, b), Xor(c, d)) == Xor(Xor(a, c), Xor(b, d))
  {
    hide Xor;
    XorAssoc(a, b, Xor(c, d));
    XorAssoc(b, c, d);
    XorComm(b, c);
    XorAssoc(c, b, d);
    XorAssoc(a, c, Xor(b, d));
  }

  // ------------------------------------------------------------------------------
  // Machine operations by name, so that proofs can hide them
  // ------------------------------------------------------------------------------

  function Up(x: bv64): bv64 { x << 1 }
  function Down(x: bv64): bv64 { x >> 1 }
  predicate Odd(x: bv64) { x & 1 == 1 }
  predicate Top(x: bv64) { x & 0x8000000000000000 != 0 }
  function Bit(on: bool): bv64 { if on then 1 else 0 }
  function Wide(c: bv8): bv64 { c as bv64 }
  function HalfByte(c: bv8): bv8 { c >> 1 }
  predicate OddByte(c: bv8) { c & 1 == 1 }

  // ------------------------------------------------------------------------------
  // Mirroring the 64 bits of a register
  // ------------------------------------------------------------------------------

  /** The bits of `x` in the opposite order (`MirrorBits` says so bit by bit). */
  function Mirror(x: bv64): bv64 {
    var a := ((x >> 1) & 0x5555555555555555) | ((x & 0x5555555555555555) << 1);
    var b := ((a >> 2) & 0x3333333333333333) | ((a & 0x3333333333333333) << 2);
    var c := ((b >> 4) & 0x0f0f0f0f0f0f0f0f) | ((b & 0x0f0f0f0f0f0f0f0f) << 4);
    var d := ((c >> 8) & 0x00ff00ff00ff00ff) | ((c & 0x00ff00ff00ff00ff) << 8);
    var e := ((d >> 16) & 0x0000ffff0000ffff) | ((d & 0x0000ffff0000ffff) << 16);
    (e >> 32) | (e << 32)
  }

  lemma MirrorBits(x: bv64, i: bv64)
    requires i < 64
    ensures (Mirror(x) >> i) & 1 == (x >> (63 - i)) & 1
  {}

  lemma MirrorXor(x: bv64, y: bv64)
    ensures Mirror(Xor(x, y)) == Xor(Mirror(x), Mirror(y))
  {}

  lemma MirrorShift(x: bv64)
    ensures Mirror(x << 1) == Mirror(x) >> 1
  {}

  lemma MirrorUp(x: bv64)
    ensures Mirror(Up(x)) == Down(Mirror(x))
  {
    hide Mirror;
    MirrorShift(x);
  }

  lemma MirrorTop(x: bv64)
    ensures Odd(Mirror(x)) == Top(x)
  {}

  lemma MirrorConstants()
    ensures Mirror(0) == 0
    ensures Mirror(POLY) == REFLECTED_POLY
  {}

  lemma MirrorDown(x: bv64)
    ensures Mirror(x >> 1) == Mirror(x) << 1
    ensures Mirror(x) >> 63 == x & 1
  {}

  // The reflection loop moves one bit per round out of the top of the mirrored rest
  // and into the bottom of the result: together they are a 128-bit shift register.

  function Glue(hi: bv64, lo: bv64): bv128 { ((hi as bv128) << 64) | (lo as bv128) }

  function Double(r: bv128): bv128 { r << 1 }

  function Doubles(r: bv128, n: nat): bv128 {
    if n == 0 then r else Double(Doubles(r, n - 1))
  }

  lemma GlueStep(ret: bv64, bit: bv64, q: bv64)
    requires bit == q >> 63
    ensures Glue((ret << 1) | bit, q << 1) == Double(Glue(ret, q))
  {}

  lemma GlueInjective(a: bv64, b: bv64, c: bv64, d: bv64)
    requires Glue(a, b) == Glue(c, d)
    ensures a == c
  {}

  lemma {:induction false} DoublesAdd(r: bv128, m: nat, n: nat)
    ensures Doubles(Doubles(r, m), n) == Doubles(r, m + n)
  {
    hide Double;
    if n > 0 {
      DoublesAdd(r, m, n - 1);
    }
  }

  function Up2(r: bv128): bv128 { r << 2 }
  function Up4(r: bv128): bv128 { r << 4 }
  function Up8(r: bv128): bv128 { r << 8 }
  function Up16(r: bv128): bv128 { r << 16 }
  function Up32(r: bv128): bv128 { r << 32 }
  function Up64(r: bv128): bv128 { r << 64 }

  lemma Twice2(r: bv128) ensures Double(Double(r)) == Up2(r) {}
  lemma Twice4(r: bv128) ensures Up2(Up2(r)) == Up4(r) {}
  lemma Twice8(r: bv128) ensures Up4(Up4(r)) == Up8(r) {}
  lemma Twice16(r: bv128) ensures Up8(Up8(r)) == Up16(r) {}
  lemma Twice32(r: bv128) ensures Up16(Up16(r)) == Up32(r) {}
  lemma Twice64(r: bv128) ensures Up32(Up32(r)) == Up64(r) {}

  lemma Doubles64(r: bv128)
    ensures Doubles(r, 64) == Up64(r)
  {
    hide Double, Up2, Up4, Up8, Up16, Up32, Up64;
    forall x ensures Doubles(x, 2) == Up2(x) {
      assert Doubles(x, 2) == Double(Doubles(x, 1)) == Double(Double(Doubles(x, 0)));
      Twice2(x);
    }
    hide Doubles;
    forall x ensures Doubles(x, 4) == Up4(x) { DoublesAdd(x, 2, 2); Twice4(x); }
    forall x ensures Doubles(x, 8) == Up8(x) { DoublesAdd(x, 4, 4); Twice8(x); }
    forall x ensures Doubles(x, 16) == Up16(x) { DoublesAdd(x, 8, 8); Twice16(x); }
    forall x ensures Doubles(x, 32) == Up32(x) { DoublesAdd(x, 16, 16); Twice32(x); }
    DoublesAdd(r, 32, 32);
    Twice64(r);
  }

  lemma GlueUp(q: bv64)
    ensures Up64(Glue(0, q)) == Glue(q, 0)
  {}

  lemma ReflectStep(ret: bv64, rest: bv64)
    ensures Glue((ret << 1) | (rest & 1), Mirror(rest >> 1)) == Double(Glue(ret, Mirror(rest)))
  {
    hide Mirror, Double, Glue;
    MirrorDown(rest);
    GlueStep(ret, rest & 1, Mirror(rest));
  }

  lemma FirstBit(data: bv64)
    ensures Glue(data & 1, Mirror(data >> 1)) == Double(Glue(0, Mirror(data)))
  {
    hide Mirror, Double, Glue;
    ReflectStep(0, data);
    assert (0 << 1) | (data & 1) == data & 1;
  }

  lemma ReflectDone(data: bv64, ret: bv64, left: bv64)
    requires Glue(ret, left) == Doubles(Glue(0, Mirror(data)), 64)
    ensures ret == Mirror(data)
  {
    hide Doubles, Mirror, Up64, Glue;
    Doubles64(Glue(0, Mirror(data)));
    GlueUp(Mirror(data));
    GlueInjective(ret, left, Mirror(data), 0);
  }

  /** `crc_reflect` on a full register. */
  method Reflect(data: bv64) returns (ret: bv64)
    ensures ret == Mirror(data)
  {
    hide Mirror, Double, Glue;
    var rest := data;
    ret := rest & 1;
    ghost var start := Glue(0, Mirror(data));
    FirstBit(data);
    assert Doubles(start, 1) == Double(Doubles(start, 0));
    for i := 1 to 64
      invariant Glue(ret, Mirror(rest >> 1)) == Doubles(start, i)
    {
      rest := rest >> 1;
      ReflectStep(ret, rest);
      ret := (ret << 1) | (rest & 1);
    }
    ReflectDone(data, ret, Mirror(rest >> 1));
  }

  // ------------------------------------------------------------------------------
  // The bit-by-bit definition
  // ------------------------------------------------------------------------------

  /** The `k`-th mask of the inner loop: 1, 2, 4, ..., 128, then 0. */
  function Mask(k: nat): bv8 {
    if k == 0 then 1 else Mask(k - 1) << 1
  }

  /** The data byte moved `k` bits down. */
  function Rest(c: bv8, k: nat): bv8 {
    if k == 0 then c else HalfByte(Rest(c, k - 1))
  }

  lemma Masks()
    ensures Mask(0) == 1 && Mask(1) == 2 && Mask(2) == 4 && Mask(3) == 8 && Mask(4) == 16
    ensures Mask(5) == 32 && Mask(6) == 64 && Mask(7) == 128 && Mask(8) == 0
  {}

  lemma Rests(c: bv8)
    ensures Rest(c, 0) == c && Rest(c, 1) == c >> 1 && Rest(c, 2) == c >> 2 && Rest(c, 3) == c >> 3
    ensures Rest(c, 4) == c >> 4 && Rest(c, 5) == c >> 5 && Rest(c, 6) == c >> 6 && Rest(c, 7) == c >> 7
    ensures Rest(c, 8) == 0
  {}

  lemma MaskSelects(c: bv8, k: nat)
    requires k <= 8
    ensures k < 8 ==> (c & Mask(k) != 0) == OddByte(Rest(c, k))
    ensures k < 8 <==> Mask(k) != 0
  {
    hide Mask, Rest;
    Masks();
    Rests(c);
  }

  /** One data bit entering the register at the top. */
  function TakeBit(crc: bv64, bit: bool): bv64 {
    if Top(crc) != bit then Xor(Up(crc), POLY) else Up(crc)
  }

  /** Bits `k..8` of a data byte, least significant first. */
  function TakeBits(crc: bv64, c: bv8, k: nat): bv64
    requires k <= 8
    decreases 8 - k
  {
    if k == 8 then crc else TakeBits(TakeBit(crc, OddByte(Rest(c, k))), c, k + 1)
  }

  function TakeBytes(crc: bv64, data: seq<bv8>): bv64 {
    if |data| == 0 then crc else TakeBits(TakeBytes(crc, data[..|data| - 1]), data[|data| - 1], 0)
  }

  /** The CRC of `data`: what `_crc64` returns for seed 0. */
  function Crc(data: seq<bv8>): bv64 {
    Mirror(TakeBytes(0, data))
  }

  lemma TakeOneMore(crc: bv64, data: seq<bv8>, n: nat)
    requires n < |data|
    ensures TakeBytes(crc, data[..n + 1]) == TakeBits(TakeBytes(crc, data[..n]), data[n], 0)
  {
    hide TakeBits;
    assert data[..n + 1][..n] == data[..n];
  }

  /** `_crc64`: every data bit is shifted in one at a time. */
  method Bitwise(seed: bv64, data: seq<bv8>) returns (r: bv64)
    ensures r == Mirror(TakeBytes(seed, data))
  {
    hide Mirror, TakeBit, Xor;
    var crc := seed;
    for offset := 0 to |data|
      invariant crc == TakeBytes(seed, data[..offset])
    {
      TakeOneMore(seed, data, offset);
      crc := BitwiseByte(crc, data[offset]);
    }
    assert data[..|data|] == data;
    r := Reflect(crc);
  }

  /** The inner loop of `_crc64`: the mask `i` runs over 1, 2, ..., 128 and then overflows. */
  method BitwiseByte(seed: bv64, c: bv8) returns (crc: bv64)
    ensures crc == TakeBits(seed, c, 0)
  {
    hide Rest, Mask, Xor, TakeBit, OddByte;
    crc := seed;
    var i: bv8 := 1;
    ghost var k := 0;
    Masks();
    while i != 0
      invariant k <= 8 && i == Mask(k)
      invariant TakeBits(crc, c, k) == TakeBits(seed, c, 0)
      decreases 8 - k
    {
      MaskSelects(c, k);
      MaskNext(k);
      crc := BitwiseBit(crc, c & i != 0);
      i, k := i << 1, k + 1;
    }
    MaskSelects(c, k);
  }

  lemma MaskNext(k: nat)
    ensures Mask(k + 1) == Mask(k) << 1
  {}

  /** The body of the inner loop of `_crc64` for one data bit. */
  method BitwiseBit(seed: bv64, on: bool) returns (crc: bv64)
    ensures crc == TakeBit(seed, on)
  {
    crc := seed;
    var bit := crc & 0x8000000000000000 != 0;
    if on {
      bit := !bit;
    }
    crc := crc << 1;
    if bit {
      crc := Xor(crc, POLY);
    }
  }

  // ------------------------------------------------------------------------------
  // The reflected register and its linearity
  // ------------------------------------------------------------------------------

  function Feedback(x: bv64): bv64 { REFLECTED_POLY & (0 - (x & 1)) }

  /** One clock of the reflected register: shift towards bit 0, feeding bit 0 back. */
  function Clock(x: bv64): bv64 { Xor(Down(x), Feedback(x)) }

  lemma DownXor(x: bv64, y: bv64)
    ensures Down(Xor(x, y)) == Xor(Down(x), Down(y))
  {}

  lemma FeedbackXor(x: bv64, y: bv64)
    ensures Feedback(Xor(x, y)) == Xor(Feedback(x), Feedback(y))
  {}

  lemma ClockXor(x: bv64, y: bv64)
    ensures Clock(Xor(x, y)) == Xor(Clock(x), Clock(y))
  {
    hide Xor, Down, Feedback;
    DownXor(x, y);
    FeedbackXor(x, y);
    XorSwap(Down(x), Feedback(x), Down(y), Feedback(y));
  }

  lemma ClockEven(z: bv64)
    requires !Odd(z)
    ensures Clock(z) == Down(z)
  {}

  lemma ClockOdd(z: bv64)
    requires Odd(z)
    ensures Clock(z) == Xor(Down(z), REFLECTED_POLY)
  {}

  function Clocks(x: bv64, n: nat): bv64
    decreases n
  {
    if n == 0 then x else Clocks(Clock(x), n - 1)
  }

  lemma {:induction false} ClocksXor(x: bv64, y: bv64, n: nat)
    ensures Clocks(Xor(x, y), n) == Xor(Clocks(x, n), Clocks(y, n))
    decreases n
  {
    hide Xor, Clock;
    if n > 0 {
      ClockXor(x, y);
      ClocksXor(Clock(x), Clock(y), n - 1);
    }
  }

  /** Eight clocks: the effect of one byte. */
  function Step(x: bv64): bv64 { Clocks(x, 8) }

  lemma StepXor(x: bv64, y: bv64)
    ensures Step(Xor(x, y)) == Xor(Step(x), Step(y))
  {
    hide Xor, Clocks;
    ClocksXor(x, y, 8);
  }

  lemma EvenDown(z: bv64)
    requires z & 3 == 0
    ensures !Odd(z) && !Odd(Down(z)) && Down(Down(z)) == z >> 2
  {}

  lemma Clocks2(z: bv64, w: bv64, n: nat)
    requires z & 3 == 0 && n >= 2 && w == z >> 2
    ensures Clocks(z, n) == Clocks(w, n - 2)
  {
    hide Clock, Odd, Down;
    EvenDown(z);
    ClockEven(z);
    ClockEven(Down(z));
  }

  lemma Clocks4(z: bv64, w: bv64, n: nat)
    requires z & 15 == 0 && n >= 4 && w == z >> 4
    ensures Clocks(z, n) == Clocks(w, n - 4)
  {
    hide Clocks;
    assert z & 3 == 0;
    Clocks2(z, z >> 2, n);
    assert (z >> 2) & 3 == 0;
    assert (z >> 2) >> 2 == w;
    Clocks2(z >> 2, w, n - 2);
  }

  /** A register whose low byte is empty just moves down by one byte. */
  lemma StepHigh(z: bv64, w: bv64)
    requires z & 255 == 0 && w == z >> 8
    ensures Step(z) == w
  {
    ClocksNone(w);
    hide Clocks;
    assert z & 15 == 0;
    Clocks4(z, z >> 4, 8);
    assert (z >> 4) & 15 == 0;
    assert (z >> 4) >> 4 == w;
    Clocks4(z >> 4, w, 4);
  }

  lemma ClocksNone(x: bv64)
    ensures Clocks(x, 0) == x
  {}

  // ------------------------------------------------------------------------------
  // The reflected register computes the mirrored bit-by-bit definition
  // ------------------------------------------------------------------------------

  lemma FlipLow(m: bv64)
    ensures Down(Xor(m, 1)) == Down(m) && Odd(Xor(m, 1)) == !Odd(m)
  {}

  lemma MirrorTakeBit(crc: bv64, on: bool)
    ensures Mirror(TakeBit(crc, on)) == Clock(Xor(Mirror(crc), Bit(on)))
  {
    hide Mirror, Clock, Xor, Up, Down, Top, Odd;
    var m := Mirror(crc);
    MirrorTop(crc);
    MirrorUp(crc);
    MirrorXor(Up(crc), POLY);
    MirrorConstants();
    XorZero(m);
    FlipLow(m);
    if Top(crc) != on {
      ClockOdd(Xor(m, Bit(on)));
    } else {
      ClockEven(Xor(m, Bit(on)));
    }
  }

  lemma SplitLow(r: bv8)
    ensures Wide(r) == Xor(Bit(OddByte(r)), Up(Wide(HalfByte(r))))
  {}

  lemma UpIsEven(r: bv8)
    ensures !Odd(Up(Wide(HalfByte(r)))) && Down(Up(Wide(HalfByte(r)))) == Wide(HalfByte(r))
  {}

  /** Injecting a byte at once is the same as injecting its bits one per clock. */
  lemma ClockByte(m: bv64, r: bv8)
    ensures Clock(Xor(m, Wide(r))) == Xor(Clock(Xor(m, Bit(OddByte(r)))), Wide(HalfByte(r)))
  {
    hide Clock, Xor, Up, Down, Odd, Bit, OddByte, Wide, HalfByte;
    var low, even := Bit(OddByte(r)), Up(Wide(HalfByte(r)));
    SplitLow(r);
    XorAssoc(m, low, even);
    ClockXor(Xor(m, low), even);
    UpIsEven(r);
    ClockEven(even);
  }

  lemma {:induction false} MirrorTakeBits(crc: bv64, c: bv8, k: nat)
    requires k <= 8
    ensures Mirror(TakeBits(crc, c, k)) == Clocks(Xor(Mirror(crc), Wide(Rest(c, k))), 8 - k)
    decreases 8 - k
  {
    hide Mirror, TakeBit, Clock, Xor, HalfByte, OddByte, Bit;
    if k == 8 {
      Rests(c);
      XorZero(Mirror(crc));
    } else {
      hide Wide;
      var r := Rest(c, k);
      MirrorTakeBit(crc, OddByte(r));
      ClockByte(Mirror(crc), r);
      MirrorTakeBits(TakeBit(crc, OddByte(r)), c, k + 1);
    }
  }

  /** The register after `data`, one byte at a time, from any starting value. */
  function Feed(x: bv64, data: seq<bv8>): bv64 {
    if |data| == 0 then x else Step(Xor(Feed(x, data[..|data| - 1]), Wide(data[|data| - 1])))
  }

  lemma {:induction false} MirrorTakeBytes(crc: bv64, data: seq<bv8>)
    ensures Mirror(TakeBytes(crc, data)) == Feed(Mirror(crc), data)
  {
    hide Mirror, TakeBits, Xor, Wide;
    if |data| > 0 {
      var n := |data| - 1;
      MirrorTakeBytes(crc, data[..n]);
      MirrorTakeByte(TakeBytes(crc, data[..n]), data[n]);
    }
  }

  lemma MirrorTakeByte(crc: bv64, c: bv8)
    ensures Mirror(TakeBits(crc, c, 0)) == Step(Xor(Mirror(crc), Wide(c)))
  {
    hide Mirror, TakeBits, Xor, Wide, Clocks;
    MirrorTakeBits(crc, c, 0);
  }

  lemma CrcIsFeed(data: seq<bv8>)
    ensures Crc(data) == Feed(0, data)
  {
    hide Mirror, TakeBytes, Feed;
    MirrorTakeBytes(0, data);
    MirrorConstants();
  }

  // ------------------------------------------------------------------------------
  // Table entries are powers of `Step`
  // ------------------------------------------------------------------------------

  /** `n` bytes worth of clocks with no data. */
  function Steps(x: bv64, n: nat): bv64
    decreases n
  {
    if n == 0 then x else Steps(Step(x), n - 1)
  }

  lemma {:induction false} StepsXor(x: bv64, y: bv64, n: nat)
    ensures Steps(Xor(x, y), n) == Xor(Steps(x, n), Steps(y, n))
    decreases n
  {
    hide Xor, Step;
    if n > 0 {
      StepXor(x, y);
      StepsXor(Step(x), Step(y), n - 1);
    }
  }

  lemma {:induction false} StepsLast(x: bv64, n: nat)
    ensures Steps(x, n + 1) == Step(Steps(x, n))
    decreases n
  {
    hide Step;
    if n > 0 {
      StepsLast(Step(x), n - 1);
    }
  }

  // The bytes of a register, and the register moved by whole bytes.

  function Low(x: bv64): bv8 { (x & 0xff) as bv8 }
  function Byte1(x: bv64): bv8 { ((x >> 8) & 0xff) as bv8 }
  function Byte2(x: bv64): bv8 { ((x >> 16) & 0xff) as bv8 }
  function Byte3(x: bv64): bv8 { ((x >> 24) & 0xff) as bv8 }
  function Byte4(x: bv64): bv8 { ((x >> 32) & 0xff) as bv8 }
  function Byte5(x: bv64): bv8 { ((x >> 40) & 0xff) as bv8 }
  function Byte6(x: bv64): bv8 { ((x >> 48) & 0xff) as bv8 }
  function Byte7(x: bv64): bv8 { (x >> 56) as bv8 }
  function High(x: bv64): bv64 { x >> 8 }
  function Raise(x: bv64): bv64 { x << 8 }

  lemma SplitByte(x: bv64)
    ensures x == Xor(Wide(Low(x)), Raise(High(x)))
  {}

  lemma RaiseHigh(x: bv64)
    ensures Raise(High(x)) & 255 == 0 && Raise(High(x)) >> 8 == High(x)
  {}

  lemma StepRaise(x: bv64)
    ensures Step(Raise(High(x))) == High(x)
  {
    hide Step, Raise;
    RaiseHigh(x);
    StepHigh(Raise(High(x)), High(x));
  }

  /** One byte of clocks splits into a table look-up on the low byte and a plain move. */
  lemma StepSplit(x: bv64)
    ensures Step(x) == Xor(Step(Wide(Low(x))), High(x))
  {
    hide Step, Raise, Xor, Wide, Low, High;
    SplitByte(x);
    StepXor(Wide(Low(x)), Raise(High(x)));
    StepRaise(x);
  }

  lemma {:induction false} StepsSplit(x: bv64, n: nat)
    requires n >= 1
    ensures Steps(x, n) == Xor(Steps(Wide(Low(x)), n), Steps(High(x), n - 1))
  {
    hide Step, Raise, Xor, Wide, Low, High;
    StepSplit(x);
    StepsXor(Step(Wide(Low(x))), High(x), n - 1);
  }

  lemma XorHigh(x: bv64, b: bv8)
    ensures High(Xor(x, Wide(b))) == High(x)
  {}

  // ------------------------------------------------------------------------------
  // Eight bytes at a time
  // ------------------------------------------------------------------------------

  function Highs(x: bv64, n: nat): bv64 {
    if n == 0 then x else High(Highs(x, n - 1))
  }

  lemma HighsAre(x: bv64)
    ensures Highs(x, 0) == x && Highs(x, 1) == x >> 8 && Highs(x, 2) == x >> 16 && Highs(x, 3) == x >> 24
    ensures Highs(x, 4) == x >> 32 && Highs(x, 5) == x >> 40 && Highs(x, 6) == x >> 48 && Highs(x, 7) == x >> 56
    ensures Highs(x, 8) == 0
  {
    assert Highs(x, 1) == x >> 8;
    assert Highs(x, 2) == (x >> 8) >> 8;
    assert Highs(x, 3) == (x >> 16) >> 8;
    assert Highs(x, 4) == (x >> 24) >> 8;
    assert Highs(x, 5) == (x >> 32) >> 8;
    assert Highs(x, 6) == (x >> 40) >> 8;
    assert Highs(x, 7) == (x >> 48) >> 8;
    assert Highs(x, 8) == (x >> 56) >> 8;
  }

  function Word(b0: bv8, b1: bv8, b2: bv8, b3: bv8, b4: bv8, b5: bv8, b6: bv8, b7: bv8): bv64 {
    (b0 as bv64) | ((b1 as bv64) << 8) | ((b2 as bv64) << 16) | ((b3 as bv64) << 24) |
    ((b4 as bv64) << 32) | ((b5 as bv64) << 40) | ((b6 as bv64) << 48) | ((b7 as bv64) << 56)
  }

  lemma WordParts(b0: bv8, b1: bv8, b2: bv8, b3: bv8, b4: bv8, b5: bv8, b6: bv8, b7: bv8)
    ensures Low(Word(b0, b1, b2, b3, b4, b5, b6, b7)) == b0
    ensures High(Word(b0, b1, b2, b3, b4, b5, b6, b7)) == Word(b1, b2, b3, b4, b5, b6, b7, 0)
  {}

  /** The 64-bit word a little-endian machine reads from eight bytes. */
  function LoadLittle(b: seq<bv8>): bv64
    requires |b| == 8
  {
    Word(b[0], b[1], b[2], b[3], b[4], b[5], b[6], b[7])
  }

  lemma LoadParts(b: seq<bv8>, c: seq<bv8>)
    requires |b| == 8 && c == b[1..] + [0]
    ensures Low(LoadLittle(b)) == b[0] && High(LoadLittle(b)) == LoadLittle(c)
  {
    hide Low, High, Word;
    WordParts(b[0], b[1], b[2], b[3], b[4], b[5], b[6], b[7]);
  }

  lemma {:induction false} LoadedByte(b: seq<bv8>, k: nat)
    requires |b| == 8 && k < 8
    ensures Low(Highs(LoadLittle(b), k)) == b[k]
    decreases k
  {
    hide LoadLittle, Low, High;
    var c := b[1..] + [0];
    LoadParts(b, c);
    if k > 0 {
      LoadedByte(c, k - 1);
      HighsFirst(LoadLittle(b), k - 1);
    }
  }

  lemma {:induction false} HighsFirst(x: bv64, n: nat)
    ensures Highs(x, n + 1) == Highs(High(x), n)
  {
    hide High;
    if n > 0 {
      HighsFirst(x, n - 1);
    }
  }

  /** Feeding the first `k` bytes of a word leaves the rest of the word to be mixed in. */
  lemma {:induction false} InjectWord(x: bv64, b: seq<bv8>, k: nat)
    requires |b| == 8 && k <= 8
    ensures Xor(Feed(x, b[..k]), Highs(LoadLittle(b), k)) == Steps(Xor(x, LoadLittle(b)), k)
  {
    hide LoadLittle, Low, High, Raise, Step, Xor, Wide;
    if k > 0 {
      var w, j := LoadLittle(b), k - 1;
      var f, h := Feed(x, b[..j]), Highs(LoadLittle(b), j);
      InjectWord(x, b, j);
      StepsLast(Xor(x, w), j);
      LoadedByte(b, j);
      assert b[..k][..j] == b[..j];
      SplitByte(h);
      XorAssoc(f, Wide(b[j]), Raise(High(h)));
      StepXor(Xor(f, Wide(b[j])), Raise(High(h)));
      StepRaise(h);
    }
  }

  lemma FeedWord(x: bv64, b: seq<bv8>)
    requires |b| == 8
    ensures Feed(x, b) == Steps(Xor(x, LoadLittle(b)), 8)
  {
    hide LoadLittle, Highs, Feed, Steps, Xor;
    InjectWord(x, b, 8);
    assert b[..8] == b;
    HighsAre(LoadLittle(b));
    XorZero(Feed(x, b));
  }

  lemma {:induction false} FeedSplit(x: bv64, a: seq<bv8>, b: seq<bv8>)
    ensures Feed(x, a + b) == Feed(Feed(x, a), b)
    decreases |b|
  {
    hide Step, Xor, Wide;
    if |b| == 0 {
      assert a + b == a;
    } else {
      var n := |b| - 1;
      assert (a + b)[..|a + b| - 1] == a + b[..n];
      FeedSplit(x, a, b[..n]);
    }
  }

  lemma FeedByte(x: bv64, b: bv8)
    ensures Feed(x, [b]) == Step(Xor(x, Wide(b)))
  {
    hide Step, Xor, Wide;
    assert [b][..0] == [];
  }

  // ------------------------------------------------------------------------------
  // Little-endian tables
  // ------------------------------------------------------------------------------

  function ByteOf(n: nat): bv8
    requires n < 256
  {
    n as bv8
  }

  function Index(b: bv8): (n: nat)
    ensures n < 256 && ByteOf(n) == b
  {
    b as nat
  }

  /** The register `k + 1` steps after byte `n`. */
  function Entry(k: nat, n: nat): bv64
    requires n < 256
  {
    Steps(Wide(ByteOf(n)), k + 1)
  }

  lemma EntryAt(k: nat, b: bv8)
    ensures Entry(k, Index(b)) == Steps(Wide(b), k + 1)
  {
    hide Steps, Wide;
  }

  ghost predicate LittleTable(table: array2<bv64>)
    reads table
  {
    && table.Length0 == 8 && table.Length1 == 256
    && forall k, n :: 0 <= k < 8 && 0 <= n < 256 ==> table[k, n] == Entry(k, n)
  }

  lemma StepsOne(x: bv64)
    ensures Steps(x, 1) == Step(x)
  {
    hide Step;
  }

  lemma FirstEntry(n: nat, r: bv64)
    requires n < 256 && r == Mirror(TakeBytes(0, [ByteOf(n)]))
    ensures r == Entry(0, n)
  {
    hide Mirror, TakeBytes, Feed, Steps, Step, Xor, Wide, ByteOf;
    var b := ByteOf(n);
    CrcIsFeed([b]);
    FeedByte(0, b);
    XorZero(Wide(b));
    StepsOne(Wide(b));
  }

  lemma NextEntry(k: nat, n: nat, crc: bv64)
    requires n < 256 && crc == Entry(k, n)
    ensures Entry(k + 1, n) == Xor(Entry(0, Index(Low(crc))), High(crc))
  {
    hide Steps, Step, Xor, Wide, ByteOf, Low, High;
    StepsLast(Wide(ByteOf(n)), k + 1);
    StepSplit(crc);
    EntryAt(0, Low(crc));
    StepsOne(Wide(Low(crc)));
  }

  /** `crcspeed64little_init` with `_crc64` as the generator. */
  method InitLittle(table: array2<bv64>)
    requires table.Length0 == 8 && table.Length1 == 256
    modifies table
    ensures LittleTable(table)
  {
    hide Entry, ByteOf;
    for n := 0 to 256
      invariant forall m :: 0 <= m < n ==> table[0, m] == Entry(0, m)
    {
      var entry := Bitwise(0, [ByteOf(n)]);
      FirstEntry(n, entry);
      table[0, n] := entry;
    }
    for n := 0 to 256
      invariant forall m :: 0 <= m < 256 ==> table[0, m] == Entry(0, m)
      invariant forall k, m :: 0 <= k < 8 && 0 <= m < n ==> table[k, m] == Entry(k, m)
    {
      InitColumn(table, n);
    }
  }

  /** The inner loop of `crcspeed64little_init`: rows 1 to 7 of one column. */
  method InitColumn(table: array2<bv64>, n: nat)
    requires table.Length0 == 8 && table.Length1 == 256 && n < 256
    requires forall m :: 0 <= m < 256 ==> table[0, m] == Entry(0, m)
    modifies table
    ensures forall k :: 0 <= k < 8 ==> table[k, n] == Entry(k, n)
    ensures forall k, m :: 0 <= k < 8 && 0 <= m < 256 && m != n ==> table[k, m] == old(table[k, m])
  {
    hide Entry, Xor, Low, High;
    var crc := table[0, n];
    for k := 1 to 8
      invariant crc == Entry(k - 1, n)
      invariant forall j :: 0 <= j < k ==> table[j, n] == Entry(j, n)
      invariant forall j, m :: 0 <= j < 8 && 0 <= m < 256 && m != n ==> table[j, m] == old(table[j, m])
    {
      NextEntry(k - 1, n, crc);
      crc := Xor(table[0, Index(Low(crc))], High(crc));
      table[k, n] := crc;
    }
  }

  /** One byte through the table. */
  lemma TableByte(crc: bv64, b: bv8)
    ensures Xor(Steps(Wide(Low(Xor(crc, Wide(b)))), 1), High(crc)) == Feed(crc, [b])
  {
    hide Steps, Wide, Xor, Low, High, Step, Feed;
    FeedByte(crc, b);
    StepSplit(Xor(crc, Wide(b)));
    XorHigh(crc, b);
    StepsOne(Wide(Low(Xor(crc, Wide(b)))));
  }

  /** Moving one look-up out of the remaining steps. */
  lemma SliceOut(acc: bv64, h: bv64, n: nat)
    requires n >= 1
    ensures Xor(acc, Steps(h, n)) == Xor(Xor(acc, Steps(Wide(Low(h)), n)), Steps(High(h), n - 1))
  {
    hide Steps, Wide, Xor, Low, High;
    StepsSplit(h, n);
    XorAssoc(acc, Steps(Wide(Low(h)), n), Steps(High(h), n - 1));
  }

  /** Look-up `k` of the sum, on the byte that is `7 - k` places up. */
  function Look(v: bv64, k: nat): bv64
    requires k <= 7
  {
    Entry(k, Index(Low(Highs(v, 7 - k))))
  }

  lemma LookIs(v: bv64, k: nat)
    requires k <= 7
    ensures Look(v, k) == Steps(Wide(Low(Highs(v, 7 - k))), k + 1)
  {
    hide Entry, Low, Highs, Steps;
    EntryAt(k, Low(Highs(v, 7 - k)));
  }

  /** The sum of look-ups 7 down to `k`. */
  function SumDown(v: bv64, k: nat): bv64
    requires k <= 7
    decreases 7 - k
  {
    if k == 7 then Look(v, 7) else Xor(SumDown(v, k + 1), Look(v, k))
  }

  lemma {:induction false} SumDownLeft(v: bv64, k: nat)
    requires k <= 7
    ensures Steps(v, 8) == Xor(SumDown(v, k), Steps(Highs(v, 8 - k), k))
    decreases 7 - k
  {
    hide Steps, Wide, Low, High, Xor, Look;
    LookIs(v, k);
    if k == 7 {
      StepsSplit(v, 8);
      assert Highs(v, 0) == v;
    } else {
      SumDownLeft(v, k + 1);
      SliceOut(SumDown(v, k + 1), Highs(v, 7 - k), k + 1);
    }
  }

  lemma SumDownAll(v: bv64)
    ensures Steps(v, 8) == SumDown(v, 0)
  {
    hide Steps, Xor, SumDown, Highs;
    SumDownLeft(v, 0);
    HighsAre(v);
    StepsNone(0);
    XorZero(SumDown(v, 0));
  }

  lemma StepsNone(x: bv64)
    ensures Steps(x, 0) == x
  {}

  /** The sum of look-ups 0 up to `k`. */
  function SumUp(v: bv64, k: nat): bv64
    requires k <= 7
  {
    if k == 0 then Look(v, 0) else Xor(SumUp(v, k - 1), Look(v, k))
  }

  lemma {:induction false} SumUpLeft(v: bv64, k: nat)
    requires k <= 7
    ensures SumUp(v, k) == Steps(Highs(v, 7 - k), k + 1)
  {
    hide Steps, Wide, Low, High, Xor, Look;
    LookIs(v, k);
    StepsSplit(Highs(v, 7 - k), k + 1);
    if k == 0 {
      HighsAre(v);
      StepsNone(0);
      XorZero(Look(v, 0));
    } else {
      SumUpLeft(v, k - 1);
      XorComm(Look(v, k), SumUp(v, k - 1));
    }
  }

  lemma SumUpAll(v: bv64)
    ensures Steps(v, 8) == SumUp(v, 7)
  {
    hide Steps, SumUp;
    SumUpLeft(v, 7);
  }

  lemma BytesAre(v: bv64)
    ensures Low(Highs(v, 0)) == Low(v) && Low(Highs(v, 1)) == Byte1(v) && Low(Highs(v, 2)) == Byte2(v)
    ensures Low(Highs(v, 3)) == Byte3(v) && Low(Highs(v, 4)) == Byte4(v) && Low(Highs(v, 5)) == Byte5(v)
    ensures Low(Highs(v, 6)) == Byte6(v) && Low(Highs(v, 7)) == Byte7(v)
  {
    hide Highs;
    HighsAre(v);
    TopByte(v >> 56);
  }

  lemma TopByte(t: bv64)
    requires t < 256
    ensures t & 0xff == t
  {}

  lemma FirstLooks(v: bv64)
    ensures Look(v, 7) == Entry(7, Index(Low(v))) && Look(v, 6) == Entry(6, Index(Byte1(v)))
    ensures Look(v, 5) == Entry(5, Index(Byte2(v))) && Look(v, 4) == Entry(4, Index(Byte3(v)))
  {
    hide Entry, Low, Highs, Byte1, Byte2, Byte3, Byte4, Byte5, Byte6, Byte7;
    BytesAre(v);
  }

  lemma LastLooks(v: bv64)
    ensures Look(v, 3) == Entry(3, Index(Byte4(v))) && Look(v, 2) == Entry(2, Index(Byte5(v)))
    ensures Look(v, 1) == Entry(1, Index(Byte6(v))) && Look(v, 0) == Entry(0, Index(Byte7(v)))
  {
    hide Entry, Low, Highs, Byte1, Byte2, Byte3, Byte4, Byte5, Byte6, Byte7;
    BytesAre(v);
  }

  /** The eight look-ups of `crcspeed64little`, in its order. */
  method SliceLittle(table: array2<bv64>, v: bv64) returns (r: bv64)
    requires LittleTable(table)
    ensures r == Steps(v, 8)
  {
    hide Entry, Xor, Low, Byte1, Byte2, Byte3, Byte4, Byte5, Byte6, Byte7, Look, Steps;
    FirstLooks(v);
    LastLooks(v);
    r := table[7, Index(Low(v))];
    r := Xor(r, table[6, Index(Byte1(v))]);
    r := Xor(r, table[5, Index(Byte2(v))]);
    r := Xor(r, table[4, Index(Byte3(v))]);
    r := Xor(r, table[3, Index(Byte4(v))]);
    r := Xor(r, table[2, Index(Byte5(v))]);
    r := Xor(r, table[1, Index(Byte6(v))]);
    r := Xor(r, table[0, Index(Byte7(v))]);
    assert r == SumDown(v, 0);
    SumDownAll(v);
  }

  lemma FeedNext(x: bv64, s: seq<bv8>, i: nat, n: nat)
    requires i <= n <= |s|
    ensures Feed(x, s[..n]) == Feed(Feed(x, s[..i]), s[i..n])
  {
    hide Feed;
    FeedSplit(x, s[..i], s[i..n]);
    assert s[..i] + s[i..n] == s[..n];
  }

  /** `crcspeed64little` on the bytes `s` stored from address `address` on. */
  method CrcLittle(table: array2<bv64>, seed: bv64, s: seq<bv8>, address: nat) returns (crc: bv64)
    requires LittleTable(table)
    ensures crc == Feed(seed, s)
  {
    hide Entry, Xor, Low, High, Wide, Steps, Feed, LoadLittle;
    crc := seed;
    var next := 0;
    FeedNone(seed);
    while next < |s| && (address + next) % 8 != 0
      invariant next <= |s| && crc == Feed(seed, s[..next])
    {
      crc := LittleByte(table, crc, s, next, seed);
      next := next + 1;
    }
    while |s| - next >= 8
      invariant next <= |s| && crc == Feed(seed, s[..next])
    {
      var word := LoadLittle(s[next..next + 8]);
      FeedWord(crc, s[next..next + 8]);
      FeedNext(seed, s, next, next + 8);
      crc := SliceLittle(table, Xor(crc, word));
      next := next + 8;
    }
    while next < |s|
      invariant next <= |s| && crc == Feed(seed, s[..next])
    {
      crc := LittleByte(table, crc, s, next, seed);
      next := next + 1;
    }
    assert s[..|s|] == s;
  }

  lemma FeedNone(x: bv64)
    ensures Feed(x, []) == x
  {}

  /** One byte of `crcspeed64little`; `seed` is the register before `s[..i]`. */
  method LittleByte(table: array2<bv64>, crc: bv64, s: seq<bv8>, i: nat, ghost seed: bv64) returns (r: bv64)
    requires LittleTable(table)
    requires i < |s| && crc == Feed(seed, s[..i])
    ensures r == Feed(seed, s[..i + 1])
  {
    hide Entry, Xor, Low, High, Wide, Steps, Feed;
    TableByte(crc, s[i]);
    EntryAt(0, Low(Xor(crc, Wide(s[i]))));
    FeedNext(seed, s, i, i + 1);
    assert s[i..i + 1] == [s[i]];
    r := Xor(table[0, Index(Low(Xor(crc, Wide(s[i]))))], High(crc));
  }

  // ------------------------------------------------------------------------------
  // Big-endian tables
  // ------------------------------------------------------------------------------

  /** `rev8`: the bytes of a register in the opposite order. */
  function Rev8(x: bv64): bv64 {
    var a := ((x >> 8) & 0xff00ff00ff00ff) | ((x & 0xff00ff00ff00ff) << 8);
    var b := ((a >> 16) & 0xffff0000ffff) | ((a & 0xffff0000ffff) << 16);
    (b >> 32) | (b << 32)
  }

  lemma Rev8Twice(x: bv64)
    ensures Rev8(Rev8(x)) == x
  {}

  lemma Rev8Xor(x: bv64, y: bv64)
    ensures Rev8(Xor(x, y)) == Xor(Rev8(x), Rev8(y))
  {}

  lemma Rev8High(x: bv64)
    ensures Rev8(x >> 8) == Rev8(x) << 8
  {}

  lemma Rev8Bytes(x: bv64)
    ensures Low(Rev8(x)) == Byte7(x) && Byte1(Rev8(x)) == Byte6(x) && Byte2(Rev8(x)) == Byte5(x)
    ensures Byte3(Rev8(x)) == Byte4(x) && Byte4(Rev8(x)) == Byte3(x) && Byte5(Rev8(x)) == Byte2(x)
    ensures Byte6(Rev8(x)) == Byte1(x) && Byte7(Rev8(x)) == Low(x)
  {}

  lemma Rev8Word(b0: bv8, b1: bv8, b2: bv8, b3: bv8, b4: bv8, b5: bv8, b6: bv8, b7: bv8)
    ensures Rev8(Word(b0, b1, b2, b3, b4, b5, b6, b7)) == Word(b7, b6, b5, b4, b3, b2, b1, b0)
  {}

  /** The 64-bit word a big-endian machine reads from eight bytes. */
  function LoadBig(b: seq<bv8>): bv64
    requires |b| == 8
  {
    Word(b[7], b[6], b[5], b[4], b[3], b[2], b[1], b[0])
  }

  lemma LoadBigIs(b: seq<bv8>)
    requires |b| == 8
    ensures LoadBig(b) == Rev8(LoadLittle(b))
  {
    hide Word, Rev8;
    Rev8Word(b[0], b[1], b[2], b[3], b[4], b[5], b[6], b[7]);
  }

  ghost predicate BigTable(table: array2<bv64>)
    reads table
  {
    && table.Length0 == 8 && table.Length1 == 256
    && forall k, n :: 0 <= k < 8 && 0 <= n < 256 ==> table[k, n] == Rev8(Entry(k, n))
  }

  /** `crcspeed64big_init`: the little-endian tables with every entry reversed. */
  method InitBig(table: array2<bv64>)
    requires table.Length0 == 8 && table.Length1 == 256
    modifies table
    ensures BigTable(table)
  {
    hide Entry, Rev8;
    InitLittle(table);
    for k := 0 to 8
      invariant forall j, m :: 0 <= j < k && 0 <= m < 256 ==> table[j, m] == Rev8(Entry(j, m))
      invariant forall j, m :: k <= j < 8 && 0 <= m < 256 ==> table[j, m] == Entry(j, m)
    {
      for n := 0 to 256
        invariant forall j, m :: 0 <= j < k && 0 <= m < 256 ==> table[j, m] == Rev8(Entry(j, m))
        invariant forall m :: 0 <= m < n ==> table[k, m] == Rev8(Entry(k, m))
        invariant forall m :: n <= m < 256 ==> table[k, m] == Entry(k, m)
        invariant forall j, m :: k < j < 8 && 0 <= m < 256 ==> table[j, m] == Entry(j, m)
      {
        table[k, n] := Rev8(table[k, n]);
      }
    }
  }

  lemma LowXor(x: bv64, b: bv8)
    ensures Low(Xor(x, Wide(b))) == Low(x) ^ b
  {}

  lemma BigIndex(c: bv64, crc: bv64, b: bv8)
    requires crc == Rev8(c)
    ensures Byte7(crc) ^ b == Low(Xor(c, Wide(b)))
  {
    hide Xor, Low, Byte7, Wide, Rev8;
    Rev8Bytes(c);
    LowXor(c, b);
  }

  lemma BigRegister(c: bv64, crc: bv64, e: bv64)
    requires crc == Rev8(c)
    ensures Xor(Rev8(e), crc << 8) == Rev8(Xor(e, High(c)))
  {
    hide Xor, Rev8;
    Rev8High(c);
    Rev8Xor(e, c >> 8);
  }

  /** One byte of `crcspeed64big`: the register is kept byte-reversed. */
  method BigByte(table: array2<bv64>, crc: bv64, s: seq<bv8>, i: nat, ghost seed: bv64) returns (r: bv64)
    requires BigTable(table)
    requires i < |s| && crc == Rev8(Feed(seed, s[..i]))
    ensures r == Rev8(Feed(seed, s[..i + 1]))
  {
    hide Entry, Xor, Low, High, Wide, Steps, Feed, Rev8;
    ghost var c := Feed(seed, s[..i]);
    TableByte(c, s[i]);
    EntryAt(0, Low(Xor(c, Wide(s[i]))));
    FeedNext(seed, s, i, i + 1);
    assert s[i..i + 1] == [s[i]];
    BigIndex(c, crc, s[i]);
    var n := Index(Byte7(crc) ^ s[i]);
    BigRegister(c, crc, Entry(0, n));
    r := Xor(table[0, n], crc << 8);
  }

  lemma SumUpRev(v: bv64, k: nat)
    requires 1 <= k <= 7
    ensures Rev8(SumUp(v, k)) == Xor(Rev8(SumUp(v, k - 1)), Rev8(Look(v, k)))
  {
    hide Xor, Rev8, Look;
    Rev8Xor(SumUp(v, k - 1), Look(v, k));
  }

  lemma BigLooks(v: bv64, x: bv64)
    requires x == Rev8(v)
    ensures Entry(0, Index(Low(x))) == Look(v, 0) && Entry(1, Index(Byte1(x))) == Look(v, 1)
    ensures Entry(2, Index(Byte2(x))) == Look(v, 2) && Entry(3, Index(Byte3(x))) == Look(v, 3)
    ensures Entry(4, Index(Byte4(x))) == Look(v, 4) && Entry(5, Index(Byte5(x))) == Look(v, 5)
    ensures Entry(6, Index(Byte6(x))) == Look(v, 6) && Entry(7, Index(Byte7(x))) == Look(v, 7)
  {
    hide Entry, Low, Byte1, Byte2, Byte3, Byte4, Byte5, Byte6, Byte7, Look, Rev8;
    FirstLooks(v);
    LastLooks(v);
    Rev8Bytes(v);
  }

  /** The eight look-ups of `crcspeed64big` on the reversed word `x`, in its order. */
  method SliceBig(table: array2<bv64>, x: bv64, ghost v: bv64) returns (r: bv64)
    requires BigTable(table) && x == Rev8(v)
    ensures r == Rev8(Steps(v, 8))
  {
    hide Entry, Xor, Low, Byte1, Byte2, Byte3, Byte4, Byte5, Byte6, Byte7, Look, Steps, Rev8;
    BigLooks(v, x);
    r := table[0, Index(Low(x))];
    assert r == Rev8(SumUp(v, 0));
    hide SumUp;
    forall k | 1 <= k <= 7 ensures Rev8(SumUp(v, k)) == Xor(Rev8(SumUp(v, k - 1)), Rev8(Look(v, k))) {
      SumUpRev(v, k);
    }
    r := Xor(r, table[1, Index(Byte1(x))]);
    r := Xor(r, table[2, Index(Byte2(x))]);
    r := Xor(r, table[3, Index(Byte3(x))]);
    r := Xor(r, table[4, Index(Byte4(x))]);
    r := Xor(r, table[5, Index(Byte5(x))]);
    r := Xor(r, table[6, Index(Byte6(x))]);
    r := Xor(r, table[7, Index(Byte7(x))]);
    assert r == Rev8(SumUp(v, 7));
    SumUpAll(v);
  }

  /** `crcspeed64big` on the bytes `s` stored from address `address` on. */
  method CrcBig(table: array2<bv64>, seed: bv64, s: seq<bv8>, address: nat) returns (r: bv64)
    requires BigTable(table)
    ensures r == Feed(seed, s)
  {
    hide Entry, Xor, Low, Steps, Feed, LoadLittle, LoadBig, Rev8;
    var crc := Rev8(seed);
    var next := 0;
    FeedNone(seed);
    while next < |s| && (address + next) % 8 != 0
      invariant next <= |s| && crc == Rev8(Feed(seed, s[..next]))
    {
      crc := BigByte(table, crc, s, next, seed);
      next := next + 1;
    }
    while |s| - next >= 8
      invariant next <= |s| && crc == Rev8(Feed(seed, s[..next]))
    {
      ghost var c, word := Feed(seed, s[..next]), LoadLittle(s[next..next + 8]);
      LoadBigIs(s[next..next + 8]);
      Rev8Xor(c, word);
      FeedWord(c, s[next..next + 8]);
      FeedNext(seed, s, next, next + 8);
      crc := SliceBig(table, Xor(crc, LoadBig(s[next..next + 8])), Xor(c, word));
      next := next + 8;
    }
    while next < |s|
      invariant next <= |s| && crc == Rev8(Feed(seed, s[..next]))
    {
      crc := BigByte(table, crc, s, next, seed);
      next := next + 1;
    }
    assert s[..|s|] == s;
    Rev8Twice(Feed(seed, s));
    r := Rev8(crc);
  }

  // ------------------------------------------------------------------------------
  // The public functions
  // ------------------------------------------------------------------------------

  ghost predicate NativeTable(table: array2<bv64>, little: bool)
    reads table
  {
    if little then LittleTable(table) else BigTable(table)
  }

  /** `crc64_init` on a machine of the given byte order. */
  method Init(table: array2<bv64>, little: bool)
    requires table.Length0 == 8 && table.Length1 == 256
    modifies table
    ensures NativeTable(table, little)
  {
    hide Entry, Rev8;
    if little {
      InitLittle(table);
    } else {
      InitBig(table);
    }
  }

  lemma CrcContinues(before: seq<bv8>, s: seq<bv8>)
    ensures Feed(Crc(before), s) == Crc(before + s)
  {
    hide Feed, Crc;
    CrcIsFeed(before);
    CrcIsFeed(before + s);
    FeedSplit(0, before, s);
  }

  /** `crc64`: the byte order of the machine and the alignment of the buffer do not show. */
  method Crc64(table: array2<bv64>, little: bool, seed: bv64, s: seq<bv8>, address: nat) returns (r: bv64)
    requires NativeTable(table, little)
    ensures forall before :: seed == Crc(before) ==> r == Crc(before + s)
  {
    hide Entry, Rev8, Feed, Crc;
    if little {
      r := CrcLittle(table, seed, s, address);
    } else {
      r := CrcBig(table, seed, s, address);
    }
    forall before | seed == Crc(before) ensures r == Crc(before + s) {
      CrcContinues(before, s);
    }
  }

  function Flatten(chunks: seq<seq<bv8>>): seq<bv8> {
    if |chunks| == 0 then [] else Flatten(chunks[..|chunks| - 1]) + chunks[|chunks| - 1]
  }

  lemma CrcOfNothing()
    ensures Crc([]) == 0
  {
    hide Mirror;
    MirrorConstants();
  }

  /** Any number of successive calls, each buffer at its own address, from seed 0. */
  method CrcOfChunks(table: array2<bv64>, little: bool, chunks: seq<seq<bv8>>, addresses: seq<nat>)
    returns (r: bv64)
    requires NativeTable(table, little) && |addresses| == |chunks|
    ensures r == Crc(Flatten(chunks))
  {
    hide Entry, Rev8, Crc;
    r := 0;
    CrcOfNothing();
    for i := 0 to |chunks|
      invariant r == Crc(Flatten(chunks[..i]))
    {
      assert chunks[..i + 1][..i] == chunks[..i];
      r := Crc64(table, little, r, chunks[i], addresses[i]);
    }
    assert chunks[..|chunks|] == chunks;
  }

  // ------------------------------------------------------------------------------
  // The published check value
  // ------------------------------------------------------------------------------

  lemma CheckBytesA()
    ensures Step(Xor(0x0000000000000000, Wide(49))) == 0xfdc17184a9f739fa
    ensures Step(Xor(0xfdc17184a9f739fa, Wide(50))) == 0xe10364513a98ed96
    ensures Step(Xor(0xe10364513a98ed96, Wide(51))) == 0xd5bcfb814479b1ac
  {}

  lemma CheckBytesB()
    ensures Step(Xor(0xd5bcfb814479b1ac, Wide(52))) == 0x43593c5dcda521f0
    ensures Step(Xor(0x43593c5dcda521f0, Wide(53))) == 0xf0758513239c7e0d
    ensures Step(Xor(0xf0758513239c7e0d, Wide(54))) == 0xa3a90925b2ab4903
  {}

  lemma CheckBytesC()
    ensures Step(Xor(0xa3a90925b2ab4903, Wide(55))) == 0x47824d362431ad45
    ensures Step(Xor(0x47824d362431ad45, Wide(56))) == 0x49ec20b315e86dc2
    ensures Step(Xor(0x49ec20b315e86dc2, Wide(57))) == 0xe9c6d914c4b8d9ca
  {}

  lemma FeedMore(x: bv64, a: seq<bv8>, b: bv8)
    ensures Feed(x, a + [b]) == Step(Xor(Feed(x, a), Wide(b)))
  {
    hide Step, Xor, Wide;
    assert (a + [b])[..|a|] == a;
  }

  lemma CheckHalves(a: seq<bv8>)
    requires a == [49, 50, 51, 52, 53]
    ensures Feed(0, a) == 0xf0758513239c7e0d
  {
    hide Step, Xor, Wide, Feed;
    CheckBytesA();
    CheckBytesB();
    FeedByte(0, 49);
    var one: seq<bv8> := [49];
    FeedMore(0, one, 50);
    FeedMore(0, one + [50], 51);
    FeedMore(0, one + [50] + [51], 52);
    FeedMore(0, one + [50] + [51] + [52], 53);
    assert a == one + [50] + [51] + [52] + [53];
  }

  /** The check value: the CRC of the nine digits "123456789". */
  lemma CheckValue()
    ensures Crc([49, 50, 51, 52, 53, 54, 55, 56, 57]) == 0xe9c6d914c4b8d9ca
  {
    hide Step, Xor, Wide, Feed, Crc;
    var a: seq<bv8> := [49, 50, 51, 52, 53, 54, 55, 56, 57];
    CrcIsFeed(a);
    var h: seq<bv8> := [49, 50, 51, 52, 53];
    CheckHalves(h);
    CheckBytesB();
    CheckBytesC();
    FeedMore(0, h, 54);
    FeedMore(0, h + [54], 55);
    FeedMore(0, h + [54] + [55], 56);
    FeedMore(0, h + [54] + [55] + [56], 57);
    assert a == h + [54] + [55] + [56] + [57];
  }
}
