/** Integers of 1 to 64 bits at any bit position of a string: BITFIELD GET, SET and INCRBY. */
module BitField {
  import opened Bits

  // ------------------------------------------------------------------------------
  // Powers of two and machine integers
  // ------------------------------------------------------------------------------

  function Pow2(n: nat): (r: int)
    ensures r > 0
  {
    if n == 0 then 1 else 2 * Pow2(n - 1)
  }

  lemma {:induction false} Pow2Up(n: nat, m: nat)
    requires n <= m
    ensures Pow2(n) <= Pow2(m) && (n < m ==> 2 * Pow2(n) <= Pow2(m))
    decreases m
  {
    if n < m {
      Pow2Up(n, m - 1);
    }
  }

  lemma {:induction false} Pow2Times(n: nat, m: nat)
    ensures Pow2(n + m) == Pow2(n) * Pow2(m)
    decreases m
  {
    if m > 0 {
      Pow2Times(n, m - 1);
      assert Pow2(n + m) == 2 * Pow2(n + (m - 1));
      Shuffle(2, Pow2(n), Pow2(m - 1));
      Shuffle(Pow2(n), 2, Pow2(m - 1));
    }
  }

  /** A quotient and a remainder determine each other. */
  lemma DivModUnique(x: int, m: int, q: int, r: int)
    requires m > 0 && 0 <= r < m && x == m * q + r
    ensures x / m == q && x % m == r
  {
    var d := x / m - q;
    assert x == m * (x / m) + x % m;
    assert m * d == r - x % m by {
      assert m * d == m * (x / m) - m * q;
    }
    if d > 0 || d < 0 {
      AtLeast(m, d);
    }
  }

  lemma AtLeast(m: int, d: int)
    requires m > 0 && d != 0
    ensures m * d >= m || m * d <= -m
  {}

  /** Reduction modulo 2^n. */
  function Mod2(x: int, n: nat): (r: nat)
    ensures r < Pow2(n)
  {
    x % Pow2(n)
  }

  lemma Mod2Same(x: int, n: nat)
    requires 0 <= x < Pow2(n)
    ensures Mod2(x, n) == x
  {
    DivModUnique(x, Pow2(n), 0, x);
  }

  lemma Mod2Add(x: int, n: nat, k: int)
    ensures Mod2(x + k * Pow2(n), n) == Mod2(x, n)
  {
    var m := Pow2(n);
    assert x == m * (x / m) + x % m;
    assert x + k * m == m * (x / m + k) + x % m;
    DivModUnique(x + k * m, m, x / m + k, x % m);
  }

  /** Reducing modulo a larger power first makes no difference. */
  lemma Mod2Twice(x: int, n: nat, m: nat)
    requires n <= m
    ensures Mod2(Mod2(x, m), n) == Mod2(x, n)
  {
    Pow2Times(n, m - n);
    var q := x / Pow2(m);
    assert x == Pow2(m) * q + Mod2(x, m);
    hide Mod2, Pow2;
    Shuffle(Pow2(n), Pow2(m - n), q);
    Mod2Add(Mod2(x, m), n, Pow2(m - n) * q);
  }

  lemma Shuffle(a: int, b: int, q: int)
    ensures (a * b) * q == (b * q) * a
  {}

  /** A number below 2^n read as an n-bit two's complement integer. */
  function Signed(v: nat, n: nat): int
    requires n > 0
  {
    if v >= Pow2(n - 1) then v - Pow2(n) else v
  }

  /** Conversion to a 64-bit unsigned and a 64-bit signed integer. */
  function U64(x: int): nat {
    Mod2(x, 64)
  }

  function I64(x: int): int {
    Signed(Mod2(x, 64), 64)
  }

  predicate IsI64(x: int) {
    -Pow2(63) <= x < Pow2(63)
  }

  predicate InSigned(x: int, n: nat)
    requires n > 0
  {
    -Pow2(n - 1) <= x < Pow2(n - 1)
  }

  /** Two's complement: an integer in range is recovered from its residue. */
  lemma SignedMod(x: int, n: nat)
    requires n > 0 && InSigned(x, n)
    ensures Signed(Mod2(x, n), n) == x
  {
    assert Pow2(n) == 2 * Pow2(n - 1);
    if x >= 0 {
      Mod2Same(x, n);
    } else {
      Mod2Add(x, n, 1);
      Mod2Same(x + Pow2(n), n);
    }
  }

  lemma SignedRange(v: nat, n: nat)
    requires n > 0 && v < Pow2(n)
    ensures InSigned(Signed(v, n), n) && Mod2(Signed(v, n), n) == v
  {
    assert Pow2(n) == 2 * Pow2(n - 1);
    Mod2Same(v, n);
    Mod2Add(v, n, -1);
  }

  lemma I64Same(x: int)
    requires IsI64(x)
    ensures I64(x) == x
  {
    SignedMod(x, 64);
  }

  // ------------------------------------------------------------------------------
  // Fields
  // ------------------------------------------------------------------------------

  /** A bit of the string followed by zeros. */
  predicate BitZ(s: Bytes, i: nat) {
    i < 8 * |s| && Bit(s, i)
  }

  /** The number in the `n` bits from `off` on, the first one highest. */
  function Field(s: Bytes, off: nat, n: nat): (r: int)
    ensures 0 <= r < Pow2(n)
  {
    if n == 0 then 0 else 2 * Field(s, off, n - 1) + One(BitZ(s, off + n - 1))
  }

  lemma {:induction false} FieldSame(s: Bytes, off: nat, t: Bytes, at: nat, n: nat)
    requires forall i :: off <= i < off + n ==> BitZ(s, i) == BitZ(t, i - off + at)
    ensures Field(s, off, n) == Field(t, at, n)
    decreases n
  {
    hide BitZ;
    if n > 0 {
      FieldSame(s, off, t, at, n - 1);
      assert BitZ(s, off + n - 1) == BitZ(t, off + n - 1 - off + at);
    }
  }

  /** `getUnsignedBitfield`. */
  method GetUnsigned(p: array<bv8>, offset: nat, bits: nat) returns (value: int)
    requires bits <= 64 && offset + bits <= 8 * p.Length
    ensures value == Field(p[..], offset, bits)
  {
    hide BitOf;
    value := 0;
    var off := offset;
    for j := 0 to bits
      invariant off == offset + j && value == Field(p[..], offset, j)
    {
      var bitval := One(BitOf(p[off / 8], off % 8));
      assert BitZ(p[..], off) == BitOf(p[off / 8], off % 8);
      NoWrap(p[..], offset, j);
      value := U64(2 * value + bitval);
      off := off + 1;
    }
  }

  lemma NoWrap(s: Bytes, off: nat, j: nat)
    requires j < 64
    ensures U64(Field(s, off, j + 1)) == Field(s, off, j + 1)
  {
    hide Field;
    Pow2Up(j + 1, 64);
    Mod2Same(Field(s, off, j + 1), 64);
  }

  /** `getSignedBitfield`. */
  method GetSigned(p: array<bv8>, offset: nat, bits: nat) returns (value: int)
    requires 0 < bits <= 64 && offset + bits <= 8 * p.Length
    ensures value == Signed(Field(p[..], offset, bits), bits)
  {
    hide Field, Pow2, I64, TopBit, Mod2;
    var u := GetUnsigned(p, offset, bits);
    value := I64(u);
    WideEnough(u, bits);
    TopBitIs(u, bits);
    if bits < 64 && TopBit(u, bits) {
      value := value - Pow2(bits);
    }
  }

  lemma WideEnough(u: int, bits: nat)
    requires 0 < bits <= 64 && 0 <= u < Pow2(bits)
    ensures I64(u) == if bits == 64 then Signed(u, 64) else u
  {
    Pow2Up(bits, 64);
    Mod2Same(u, 64);
    if bits < 64 {
      Pow2Up(bits, 63);
    }
  }

  lemma TopBitIs(u: int, bits: nat)
    requires 0 < bits && 0 <= u < Pow2(bits)
    ensures TopBit(u, bits) <==> u >= Pow2(bits - 1)
  {
    var m := Pow2(bits - 1);
    if u >= m {
      DivModUnique(u, m, 1, u - m);
    } else {
      DivModUnique(u, m, 0, u);
    }
  }

  /** `value & (1 << (bits - 1))`. */
  predicate TopBit(u: int, bits: nat)
    requires bits > 0
  {
    (u / Pow2(bits - 1)) % 2 == 1
  }

  // ------------------------------------------------------------------------------
  // Writing
  // ------------------------------------------------------------------------------

  function BitMask(k: nat): bv8
    requires k < 8
  {
    1 << (7 - k)
  }

  lemma MaskBits(k: nat, j: nat)
    requires k < 8 && j < 8
    ensures BitOf(BitMask(k), j) <==> j == k
  {}

  function Or8(b: bv8, m: bv8): bv8 {
    b | m
  }

  function AndNot8(b: bv8, m: bv8): bv8 {
    b & !m
  }

  lemma OrBits(b: bv8, m: bv8, j: nat)
    requires j < 8
    ensures BitOf(Or8(b, m), j) <==> BitOf(b, j) || BitOf(m, j)
  {
    if j == 0 {
    } else if j == 1 {
    } else if j == 2 {
    } else if j == 3 {
    } else if j == 4 {
    } else if j == 5 {
    } else if j == 6 {
    } else {
    }
  }

  lemma AndNotBits(b: bv8, m: bv8, j: nat)
    requires j < 8
    ensures BitOf(AndNot8(b, m), j) <==> BitOf(b, j) && !BitOf(m, j)
  {
    if j == 0 {
    } else if j == 1 {
    } else if j == 2 {
    } else if j == 3 {
    } else if j == 4 {
    } else if j == 5 {
    } else if j == 6 {
    } else {
    }
  }

  /** `byteval &= ~(1 << bit); byteval |= bitval << bit`. */
  function PutBit(b: bv8, k: nat, v: bool): bv8
    requires k < 8
  {
    Or8(AndNot8(b, BitMask(k)), if v then BitMask(k) else 0)
  }

  lemma PutBits(b: bv8, k: nat, v: bool, j: nat)
    requires k < 8 && j < 8
    ensures BitOf(PutBit(b, k, v), j) == if j == k then v else BitOf(b, j)
  {
    hide BitOf, BitMask, Or8, AndNot8;
    var m := BitMask(k);
    MaskBits(k, j);
    AndNotBits(b, m, j);
    OrBits(AndNot8(b, m), if v then m else 0, j);
    ZeroBits(j);
  }

  lemma ZeroBits(j: nat)
    requires j < 8
    ensures !BitOf(0, j)
  {}

  /** Bit `bits - 1 - j` of a number. */
  predicate BitOfNumber(value: int, k: nat) {
    (value / Pow2(k)) % 2 == 1
  }

  /** The bits written so far are the high bits of the value. */
  function HighBits(value: int, bits: nat, j: nat): int
    requires j <= bits
  {
    (value / Pow2(bits - j)) % Pow2(j)
  }

  lemma HalfOf(value: int, k: nat)
    ensures value / Pow2(k + 1) == (value / Pow2(k)) / 2
  {
    var m := Pow2(k);
    var a := value / m;
    var b, c := a / 2, a % 2;
    assert value == m * a + value % m;
    assert a == 2 * b + c;
    Distribute(m, 2 * b, c);
    Shuffle(m, 2, b);
    assert value == (2 * m) * b + (m * c + value % m);
    DivModUnique(value, 2 * m, b, m * c + value % m);
  }

  lemma Distribute(m: int, a: int, b: int)
    ensures m * (a + b) == m * a + m * b
  {}

  lemma ModNext(v: int, j: nat)
    ensures v % Pow2(j + 1) == 2 * ((v / 2) % Pow2(j)) + v % 2
  {
    var m, q := Pow2(j), v / 2;
    var a, b := q / m, q % m;
    assert q == m * a + b && v == 2 * q + v % 2;
    Distribute(2, m * a, b);
    assert v == (2 * m) * a + (2 * b + v % 2);
    DivModUnique(v, 2 * m, a, 2 * b + v % 2);
  }

  lemma HighNext(value: int, bits: nat, j: nat)
    requires j < bits
    ensures HighBits(value, bits, j + 1) == 2 * HighBits(value, bits, j) + One(BitOfNumber(value, bits - 1 - j))
  {
    hide Pow2;
    HalfOf(value, bits - 1 - j);
    ModNext(value / Pow2(bits - 1 - j), j);
  }

  lemma HighAll(value: int, bits: nat)
    ensures HighBits(value, bits, bits) == Mod2(value, bits)
    ensures HighBits(value, bits, 0) == 0
  {
    assert value / Pow2(0) == value;
  }

  lemma PutString(s: Bytes, i: nat, v: bool, k: nat)
    requires i < 8 * |s|
    ensures var t := s[i / 8 := PutBit(s[i / 8], i % 8, v)];
            BitZ(t, k) == if k == i then v else BitZ(s, k)
  {
    hide BitOf, PutBit;
    if k < 8 * |s| && k / 8 == i / 8 {
      PutBits(s[i / 8], i % 8, v, k % 8);
    }
  }

  /** Outside the field at `off` the two strings have the same bits. */
  ghost predicate SameElse(s: Bytes, t: Bytes, off: nat, n: nat) {
    |s| == |t| && forall i: nat :: !(off <= i < off + n) ==> BitZ(s, i) == BitZ(t, i)
  }

  /** `setUnsignedBitfield`: the field takes the low bits of the value, and no other bit changes. */
  method SetUnsigned(p: array<bv8>, offset: nat, bits: nat, value: int)
    requires bits <= 64 && offset + bits <= 8 * p.Length
    modifies p
    ensures Field(p[..], offset, bits) == Mod2(value, bits)
    ensures SameElse(old(p[..]), p[..], offset, bits)
  {
    hide BitOf, PutBit, BitZ, HighBits, BitOfNumber;
    HighAll(value, bits);
    ghost var was := p[..];
    var off := offset;
    for j := 0 to bits
      invariant off == offset + j && Field(p[..], offset, j) == HighBits(value, bits, j)
      invariant SameElse(was, p[..], offset, j)
    {
      ghost var before := p[..];
      var bitval := BitOfNumber(value, bits - 1 - j);
      p[off / 8] := PutBit(p[off / 8], off % 8, bitval);
      ghost var after := p[..];
      assert after == before[off / 8 := PutBit(before[off / 8], off % 8, bitval)];
      forall i: nat ensures BitZ(after, i) == if i == off then bitval else BitZ(before, i) {
        PutString(before, off, bitval, i);
      }
      FieldSame(before, offset, after, offset, j);
      HighNext(value, bits, j);
      off := off + 1;
    }
  }

  // ------------------------------------------------------------------------------
  // Overflow
  // ------------------------------------------------------------------------------

  datatype Overflow = Wrap | Sat | Fail

  /** The type of a field; 64-bit unsigned fields do not exist. */
  datatype FieldType = FieldType(signed: bool, bits: nat)

  predicate ValidType(t: FieldType) {
    0 < t.bits <= if t.signed then 64 else 63
  }

  function MinOf(t: FieldType): int
    requires t.bits > 0
  {
    if t.signed then -Pow2(t.bits - 1) else 0
  }

  function MaxOf(t: FieldType): int
    requires t.bits > 0
  {
    if t.signed then Pow2(t.bits - 1) - 1 else Pow2(t.bits) - 1
  }

  predicate Fits(x: int, t: FieldType)
    requires t.bits > 0
  {
    MinOf(t) <= x <= MaxOf(t)
  }

  /** The integer of the type that is congruent to `x` modulo 2^bits. */
  function Wrapped(x: int, t: FieldType): int
    requires t.bits > 0
  {
    if t.signed then Signed(Mod2(x, t.bits), t.bits) else Mod2(x, t.bits)
  }

  /** The nearest bound. */
  function Clamped(x: int, t: FieldType): int
    requires t.bits > 0
  {
    if x > MaxOf(t) then MaxOf(t) else MinOf(t)
  }

  /** What an addition that does not fit gives. */
  function Limit(x: int, t: FieldType, ow: Overflow): int
    requires t.bits > 0
  {
    match ow
    case Wrap => Wrapped(x, t)
    case Sat => Clamped(x, t)
    case Fail => 0
  }

  lemma Small64(x: int, n: nat)
    requires n <= 63 && -Pow2(n) <= x < Pow2(n)
    ensures I64(x) == x
  {
    hide I64;
    Pow2Up(n, 63);
    I64Same(x);
  }

  /** `checkUnsignedBitfieldOverflow`, for a value that is in range or is only to be stored. */
  method CheckUnsigned(value: int, incr: int, bits: nat, ow: Overflow) returns (over: int, limit: int)
    requires 0 < bits <= 63 && 0 <= value && IsI64(incr) && (value < Pow2(bits) || incr == 0)
    ensures over == 0 <==> Fits(value + incr, FieldType(false, bits))
    ensures over != 0 ==> limit == Limit(value + incr, FieldType(false, bits), ow)
  {
    hide I64, Mod2, Pow2;
    limit := 0;
    var max := Pow2(bits) - 1;
    var maxincr, minincr := I64(max - value), I64(-value);
    if value <= max {
      Small64(max - value, bits);
      Small64(-value, bits);
    }
    if value > max || (incr > 0 && incr > maxincr) {
      over := 1;
      if ow == Wrap {
        limit := Mod2(U64(value + incr), bits);
        Mod2Twice(value + incr, bits, 64);
      } else if ow == Sat {
        limit := max;
      }
    } else if incr < 0 && incr < minincr {
      over := -1;
      if ow == Wrap {
        over := 1;
        limit := Mod2(U64(value + incr), bits);
        Mod2Twice(value + incr, bits, 64);
      } else if ow == Sat {
        limit := 0;
      }
    } else {
      over := 0;
    }
  }

  /** The `handle_wrap` part of the signed check: the sign bit is spread over the higher bits. */
  method WrapSigned(value: int, incr: int, bits: nat) returns (limit: int)
    requires 0 < bits <= 64
    ensures limit == Signed(Mod2(value + incr, bits), bits)
  {
    hide I64, Mod2, Pow2, BitOfNumber;
    var c := U64(U64(value) + U64(incr));
    SumU64(value, incr);
    if bits < 64 {
      Mod2Twice(value + incr, bits, 64);
      SignBit(c, bits);
      if BitOfNumber(c, bits - 1) {
        c := Mod2(c, bits) + (Pow2(64) - Pow2(bits));
      } else {
        c := Mod2(c, bits);
      }
    }
    limit := I64(c);
    ghost var v := Mod2(value + incr, bits);
    if bits < 64 {
      Spread(v, bits);
    } else {
      WideEnough(v, 64);
    }
  }

  lemma SumU64(a: int, b: int)
    ensures U64(U64(a) + U64(b)) == U64(a + b)
  {
    hide Mod2;
    ModSum(a, b, 64);
  }

  lemma ModSum(a: int, b: int, n: nat)
    ensures Mod2(Mod2(a, n) + Mod2(b, n), n) == Mod2(a + b, n)
  {
    hide Mod2, Pow2;
    var p := Quotient(a, n);
    var q := Quotient(b, n);
    Distribute(Pow2(n), p, q);
    Mod2Add(Mod2(a, n) + Mod2(b, n), n, p + q);
  }

  lemma Quotient(x: int, n: nat) returns (q: int)
    ensures x == Pow2(n) * q + Mod2(x, n)
  {
    q := x / Pow2(n);
  }

  lemma UpperHalf(c: int, m: int)
    requires m > 0
    ensures (c / m) % 2 == 1 <==> c % (2 * m) >= m
  {
    var q, r := c / m, c % m;
    var a, b := q / 2, q % 2;
    assert c == m * q + r && q == 2 * a + b;
    Distribute(m, 2 * a, b);
    Shuffle(m, 2, a);
    var x := if b == 0 then r else m + r;
    assert m * b + r == x by {
      if b == 0 {} else { assert b == 1; }
    }
    Halved(c, m, a, x);
  }

  lemma Halved(c: int, m: int, a: int, x: int)
    requires m > 0 && 0 <= x < 2 * m && c == 2 * (m * a) + x
    ensures c % (2 * m) == x
  {
    Shuffle(2, m, a);
    DivModUnique(c, 2 * m, a, x);
  }

  /** Bit `bits - 1` decides on which half the residue is. */
  lemma SignBit(c: int, bits: nat)
    requires bits > 0
    ensures BitOfNumber(c, bits - 1) <==> Mod2(c, bits) >= Pow2(bits - 1)
  {
    assert Pow2(bits) == 2 * Pow2(bits - 1);
    hide Pow2;
    UpperHalf(c, Pow2(bits - 1));
  }

  lemma Spread(v: int, bits: nat)
    requires 0 < bits < 64 && 0 <= v < Pow2(bits)
    ensures v >= Pow2(bits - 1) ==> I64(v + (Pow2(64) - Pow2(bits))) == v - Pow2(bits)
    ensures v < Pow2(bits - 1) ==> I64(v) == v
  {
    hide Pow2, Mod2;
    Pow2Up(bits, 63);
    Pow2Up(bits - 1, 63);
    if v >= Pow2(bits - 1) {
      Mod2Add(v - Pow2(bits), 64, 1);
      I64Same(v - Pow2(bits));
    } else {
      I64Same(v);
    }
  }

  lemma SignedRoom(value: int, x: int, bits: nat)
    requires 0 < bits <= 64 && InSigned(value, bits) && -Pow2(bits - 1) <= x < Pow2(bits - 1)
    ensures bits < 64 ==> I64(x - value) == x - value
    ensures bits == 64 && (x >= 0 <==> value >= 0) ==> I64(x - value) == x - value
  {
    if bits < 64 {
      assert Pow2(bits) == 2 * Pow2(bits - 1);
      hide I64, Pow2;
      Small64(x - value, bits);
    } else if x >= 0 <==> value >= 0 {
      hide I64, Pow2;
      I64Same(x - value);
    }
  }

  /** Values so far below the field's range that the distance to its maximum is no 64-bit
      integer. */
  predicate TooLow(value: int, bits: nat)
    requires bits > 0
  {
    bits < 64 && value < Pow2(bits - 1) - Pow2(63)
  }

  lemma NotTooLow(value: int, bits: nat)
    requires bits > 0 && InSigned(value, bits)
    ensures !TooLow(value, bits)
  {
    if bits < 64 {
      Pow2Up(bits - 1, 62);
    }
  }

  /** The distance to the maximum as the check computes it: it turns negative below that. */
  lemma LowRoom(value: int, bits: nat)
    requires 0 < bits <= 64 && IsI64(value) && !InSigned(value, bits) && value < 0
    ensures bits < 64 && (I64(Pow2(bits - 1) - 1 - value) < 0 <==> TooLow(value, bits))
  {
    Doubles();
    hide I64, Pow2, Mod2;
    var x := Pow2(bits - 1) - 1 - value;
    if bits < 64 {
      Pow2Up(bits - 1, 62);
      if TooLow(value, bits) {
        TurnsNegative(x);
      } else {
        I64Same(x);
      }
    }
  }

  lemma TurnsNegative(x: int)
    requires Pow2(63) <= x < Pow2(64)
    ensures I64(x) == x - Pow2(64)
  {
    Doubles();
    hide I64, Pow2, Mod2;
    Mod2Add(x - Pow2(64), 64, 1);
    I64Same(x - Pow2(64));
    SameResidue(x - Pow2(64), x);
  }

  lemma HighRoom(value: int, bits: nat)
    requires bits > 0 && value >= 0
    ensures !TooLow(value, bits)
  {
    if bits < 64 {
      Pow2Up(bits - 1, 62);
    }
  }

  lemma Doubles()
    ensures Pow2(64) == 2 * Pow2(63) && Pow2(63) == 2 * Pow2(62)
  {}

  lemma SameResidue(x: int, y: int)
    requires Mod2(x, 64) == Mod2(y, 64)
    ensures I64(x) == I64(y)
  {}

  /** `checkSignedBitfieldOverflow`, for a value that is in range or is only to be stored. */
  method CheckSigned(value: int, incr: int, bits: nat, ow: Overflow) returns (over: int, limit: int)
    requires 0 < bits <= 64 && IsI64(value) && IsI64(incr) && (InSigned(value, bits) || incr == 0)
    ensures over == 0 <==> Fits(value + incr, FieldType(true, bits))
    ensures over != 0 ==>
              limit == if ow == Sat && TooLow(value, bits) then MaxOf(FieldType(true, bits))
                       else Limit(value + incr, FieldType(true, bits), ow)
  {
    hide I64, Mod2, Pow2, TooLow;
    limit := 0;
    var max := Pow2(bits - 1) - 1;
    var min := -max - 1;
    var maxincr, minincr := I64(max - value), I64(min - value);
    if InSigned(value, bits) {
      SignedRoom(value, max, bits);
      SignedRoom(value, min, bits);
      NotTooLow(value, bits);
    } else if value < 0 {
      LowRoom(value, bits);
    } else {
      HighRoom(value, bits);
    }
    if value > max || (bits != 64 && incr > maxincr) || (value >= 0 && incr > 0 && incr > maxincr) {
      over := 1;
      if ow == Wrap {
        limit := WrapSigned(value, incr, bits);
      } else if ow == Sat {
        limit := max;
      }
    } else if value < min || (bits != 64 && incr < minincr) || (value < 0 && incr < 0 && incr < minincr) {
      over := -1;
      if ow == Wrap {
        over := 1;
        limit := WrapSigned(value, incr, bits);
      } else if ow == Sat {
        limit := min;
      }
    } else {
      over := 0;
    }
  }

  // ------------------------------------------------------------------------------
  // INCRBY and GET
  // ------------------------------------------------------------------------------

  /** The integer a field holds. */
  function Read(s: Bytes, off: nat, t: FieldType): int
    requires t.bits > 0
  {
    if t.signed then Signed(Field(s, off, t.bits), t.bits) else Field(s, off, t.bits)
  }

  lemma ReadFits(s: Bytes, off: nat, t: FieldType)
    requires t.bits > 0
    ensures Fits(Read(s, off, t), t)
  {
    hide Field;
    SignedRange(Field(s, off, t.bits), t.bits);
  }

  method GetField(p: array<bv8>, offset: nat, t: FieldType) returns (v: int)
    requires ValidType(t) && offset + t.bits <= 8 * p.Length
    ensures v == Read(p[..], offset, t)
  {
    if t.signed {
      v := GetSigned(p, offset, t.bits);
    } else {
      v := GetUnsigned(p, offset, t.bits);
    }
  }

  /** An integer of the type that is written reads back. */
  method SetField(p: array<bv8>, offset: nat, t: FieldType, v: int)
    requires ValidType(t) && offset + t.bits <= 8 * p.Length && Fits(v, t)
    modifies p
    ensures Read(p[..], offset, t) == v && SameElse(old(p[..]), p[..], offset, t.bits)
  {
    hide Field, Mod2, Pow2, SameElse;
    SetUnsigned(p, offset, t.bits, U64(v));
    Mod2Twice(v, t.bits, 64);
    if t.signed {
      SignedMod(v, t.bits);
    } else {
      Mod2Same(v, t.bits);
    }
  }

  datatype Reply = Null | Value(v: int)

  lemma LimitFits(x: int, t: FieldType, ow: Overflow)
    requires t.bits > 0 && ow != Fail
    ensures Fits(Limit(x, t, ow), t)
  {
    SignedRange(Mod2(x, t.bits), t.bits);
    assert Pow2(t.bits - 1) > 0;
  }

  /** What INCRBY leaves in a field that held `v`. */
  function Incremented(v: int, incr: int, t: FieldType, ow: Overflow): int
    requires t.bits > 0
  {
    if Fits(v + incr, t) then v + incr else if ow == Fail then v else Limit(v + incr, t, ow)
  }

  /** BITFIELD INCRBY. */
  method IncrBy(p: array<bv8>, offset: nat, t: FieldType, incr: int, ow: Overflow) returns (r: Reply)
    requires 1 <= t.bits && (t.bits <= 63 || (t.signed && t.bits == 64))
    requires offset + t.bits <= 8 * p.Length && IsI64(incr)
    modifies p
    ensures Read(p[..], offset, t) == Incremented(old(Read(p[..], offset, t)), incr, t, ow)
    ensures SameElse(old(p[..]), p[..], offset, t.bits)
    ensures r == if ow == Fail && !Fits(old(Read(p[..], offset, t)) + incr, t) then Null
                 else Value(Read(p[..], offset, t))
  {
    hide Field, Mod2, Pow2, Signed, Read, SameElse, Limit, IsI64;
    var oldval := GetField(p, offset, t);
    ReadFits(p[..], offset, t);
    var over, wrapped;
    if t.signed {
      NotTooLow(oldval, t.bits);
      WideEnough64(oldval, t.bits);
      over, wrapped := CheckSigned(oldval, incr, t.bits, ow);
    } else {
      over, wrapped := CheckUnsigned(oldval, incr, t.bits, ow);
    }
    assert over == 0 <==> Fits(oldval + incr, t);
    if over != 0 && ow == Fail {
      SameSelf(p[..], offset, t.bits);
      return Null;
    }
    if over != 0 {
      LimitFits(oldval + incr, t, ow);
    }
    var newval := if over != 0 then wrapped else oldval + incr;
    SetField(p, offset, t, newval);
    r := Value(newval);
  }

  lemma WideEnough64(value: int, bits: nat)
    requires 0 < bits <= 64 && InSigned(value, bits)
    ensures IsI64(value)
  {
    Pow2Up(bits - 1, 63);
  }

  /** The number BITFIELD SET is asked to store: the argument, or its 64-bit unsigned form. */
  function Asked(v: int, t: FieldType): int {
    if t.signed then v else U64(v)
  }

  /** What a field that held `v` is to hold after SET of a number that may not fit. */
  function Stored(v: int, x: int, t: FieldType, ow: Overflow): int
    requires t.bits > 0
  {
    if Fits(x, t) then x else if ow == Fail then v else Limit(x, t, ow)
  }

  /** What it does hold then. */
  function Left(v: int, x: int, t: FieldType, ow: Overflow): int
    requires t.bits > 0
  {
    if ow == Sat && t.signed && TooLow(x, t.bits) then MaxOf(t) else Stored(v, x, t, ow)
  }

  /** BITFIELD SET.  The field is left as the overflow type says, except that saturation of a
      signed number that is too low ends at the wrong bound. */
  method Set(p: array<bv8>, offset: nat, t: FieldType, v: int, ow: Overflow) returns (r: Reply)
    requires 1 <= t.bits && (t.bits <= 63 || (t.signed && t.bits == 64))
    requires offset + t.bits <= 8 * p.Length && IsI64(v)
    modifies p
    ensures Read(p[..], offset, t) == Left(old(Read(p[..], offset, t)), Asked(v, t), t, ow)
    ensures SameElse(old(p[..]), p[..], offset, t.bits)
    ensures r == if ow == Fail && !Fits(Asked(v, t), t) then Null else Value(old(Read(p[..], offset, t)))
  {
    hide Field, Mod2, Pow2, Signed, Read, SameElse, Limit, TooLow;
    var oldval := GetField(p, offset, t);
    var over, wrapped;
    var x := Asked(v, t);
    if t.signed {
      LowDoesNotFit(v, t.bits);
      over, wrapped := CheckSigned(x, 0, t.bits, ow);
    } else {
      over, wrapped := CheckUnsigned(x, 0, t.bits, ow);
    }
    assert over == 0 <==> Fits(x + 0, t);
    if over != 0 && ow == Fail {
      SameSelf(p[..], offset, t.bits);
      return Null;
    }
    if over != 0 {
      LimitFits(x, t, ow);
      LimitFits(MaxOf(t), t, Sat);
    }
    var newval := if over != 0 then wrapped else x;
    SetField(p, offset, t, newval);
    r := Value(oldval);
  }

  lemma LowDoesNotFit(v: int, bits: nat)
    requires bits > 0
    ensures TooLow(v, bits) ==> !Fits(v, FieldType(true, bits))
  {
    if InSigned(v, bits) {
      NotTooLow(v, bits);
    }
  }

  /** SET does what the overflow type says exactly if it does not saturate a number that is
      too low. */
  lemma SetIff(v: int, x: int, t: FieldType, ow: Overflow)
    requires ValidType(t) && (t.signed ==> IsI64(x))
    ensures Left(v, x, t, ow) == Stored(v, x, t, ow) <==> !(ow == Sat && t.signed && TooLow(x, t.bits))
  {
    hide Pow2, TooLow;
    if t.signed {
      LowDoesNotFit(x, t.bits);
      if TooLow(x, t.bits) {
        LowNegative(x, t.bits);
      }
    }
  }

  lemma LowNegative(x: int, bits: nat)
    requires bits > 0 && TooLow(x, bits)
    ensures x < 0
  {
    Pow2Up(bits - 1, 62);
  }

  /** A concrete one: the lowest 64-bit integer saturates an `i8` field at 127. */
  method LowestSaturates() returns (p: array<bv8>, v: int)
    ensures fresh(p) && p.Length == 1 && v == -Pow2(63) && Read(p[..], 0, FieldType(true, 8)) == 127
  {
    p, v := new bv8[1], -Pow2(63);
    var t := FieldType(true, 8);
    assert Pow2(7) == 128;
    assert TooLow(v, t.bits);
    hide Pow2, Field, Read;
    var r := Set(p, 0, t, v, Sat);
  }

  lemma SameSelf(s: Bytes, off: nat, n: nat)
    ensures SameElse(s, s, off, n)
  {}

  /** Byte `i` of the string followed by zeros. */
  function ByteZ(s: Bytes, i: nat): bv8 {
    if i < |s| then s[i] else 0
  }

  lemma BitOfByteZ(s: Bytes, i: nat)
    ensures BitZ(s, i) == BitOf(ByteZ(s, i / 8), i % 8)
  {
    hide BitOf;
    ZeroBits(i % 8);
  }

  /** Nine bytes are enough for any field of up to 64 bits. */
  lemma Window(src: Bytes, buf: Bytes, offset: nat, bits: nat)
    requires bits <= 64 && |buf| == 9 && forall k :: 0 <= k < 9 ==> buf[k] == ByteZ(src, offset / 8 + k)
    ensures Field(src, offset, bits) == Field(buf, offset - offset / 8 * 8, bits)
  {
    var byte := offset / 8;
    var at := offset - 8 * byte;
    hide BitZ, ByteZ, Field;
    forall i | offset <= i < offset + bits ensures BitZ(src, i) == BitZ(buf, i - offset + at) {
      var j := i - 8 * byte;
      assert i / 8 == byte + j / 8 && i % 8 == j % 8 && j / 8 < 9;
      BitOfByteZ(src, i);
      BitOfByteZ(buf, j);
      InBuffer(buf, j / 8);
    }
    FieldSame(src, offset, buf, at, bits);
  }

  lemma InBuffer(buf: Bytes, k: nat)
    requires k < |buf|
    ensures ByteZ(buf, k) == buf[k]
  {}

  /** BITFIELD GET: up to nine bytes are copied to a zeroed buffer, and the field is read there. */
  method Get(src: Bytes, offset: nat, t: FieldType) returns (v: int)
    requires ValidType(t)
    ensures v == Read(src, offset, t)
  {
    hide BitZ, Field, BitOf;
    var buf := new bv8[9](_ => 0);
    var byte := offset / 8;
    var i := 0;
    while i < 9 && i + byte < |src|
      invariant 0 <= i <= 9
      invariant forall k :: 0 <= k < i ==> buf[k] == ByteZ(src, byte + k)
      invariant forall k :: i <= k < 9 ==> buf[k] == 0
    {
      buf[i] := src[i + byte];
      i := i + 1;
    }
    Window(src, buf[..], offset, t.bits);
    v := GetField(buf, offset - byte * 8, t);
  }

  // ------------------------------------------------------------------------------
  // What the numbers mean
  // ------------------------------------------------------------------------------

  lemma OtherBits(s: Bytes, t: Bytes, off: nat, n: nat, i: nat)
    requires SameElse(s, t, off, n) && (i < off || i >= off + n)
    ensures |s| == |t| && BitZ(s, i) == BitZ(t, i)
  {}

  /** The bounds of a type. */
  lemma FitsIs(x: int, t: FieldType)
    requires t.bits > 0
    ensures Fits(x, t) <==> if t.signed then -Pow2(t.bits - 1) <= x < Pow2(t.bits - 1) else 0 <= x < Pow2(t.bits)
  {
    hide Pow2;
  }

  lemma ModDiff(x: int, m: int)
    requires m > 0
    ensures (x - x % m) % m == 0 && (x - (x % m - m)) % m == 0
  {
    var q := x / m;
    assert x == m * q + x % m;
    Distribute(m, q, 1);
    DivModUnique(x - x % m, m, q, 0);
    DivModUnique(x - (x % m - m), m, q + 1, 0);
  }

  /** Wrapping: a number of the type, and congruent. */
  lemma WrappedIs(x: int, t: FieldType)
    requires t.bits > 0
    ensures Fits(Wrapped(x, t), t) && Pow2(t.bits) > 0 && (x - Wrapped(x, t)) % Pow2(t.bits) == 0
  {
    hide Pow2;
    LimitFits(x, t, Wrap);
    ModDiff(x, Pow2(t.bits));
  }

  /** What INCRBY leaves in a field that held `v`, which fits. */
  lemma IncrementedIs(v: int, incr: int, t: FieldType, ow: Overflow)
    requires t.bits > 0 && Fits(v, t)
    ensures var r := Incremented(v, incr, t, ow);
            && Fits(r, t) && Pow2(t.bits) > 0
            && (Fits(v + incr, t) ==> r == v + incr)
            && (!Fits(v + incr, t) ==>
                  match ow
                  case Wrap => (v + incr - r) % Pow2(t.bits) == 0
                  case Sat =>
                    if t.signed then r == (if incr > 0 then Pow2(t.bits - 1) - 1 else -Pow2(t.bits - 1))
                    else r == (if incr > 0 then Pow2(t.bits) - 1 else 0)
                  case Fail => r == v)
  {
    hide Pow2, Wrapped;
    if ow != Fail {
      LimitFits(v + incr, t, ow);
    }
    WrappedIs(v + incr, t);
  }

  /** What SET is to leave in it: the number asked for, a negative one for an unsigned field
      counting from 2^64. */
  lemma StoredIs(v: int, arg: int, t: FieldType, ow: Overflow)
    requires t.bits > 0 && Fits(v, t) && IsI64(arg)
    ensures var x := if t.signed || arg >= 0 then arg else Pow2(64) + arg;
            var r := Stored(v, Asked(arg, t), t, ow);
            && Asked(arg, t) == x && Fits(r, t) && Pow2(t.bits) > 0
            && (Fits(x, t) ==> r == x)
            && (!Fits(x, t) ==>
                  match ow
                  case Wrap => (x - r) % Pow2(t.bits) == 0
                  case Sat =>
                    if t.signed then r == (if x >= 0 then Pow2(t.bits - 1) - 1 else -Pow2(t.bits - 1))
                    else r == (if x >= 0 then Pow2(t.bits) - 1 else 0)
                  case Fail => r == v)
  {
    hide Pow2, Wrapped;
    AskedIs(arg, t);
    var x := Asked(arg, t);
    if ow != Fail {
      LimitFits(x, t, ow);
    }
    WrappedIs(x, t);
  }

  lemma AskedIs(arg: int, t: FieldType)
    requires IsI64(arg)
    ensures Asked(arg, t) == if t.signed || arg >= 0 then arg else Pow2(64) + arg
  {
    hide Pow2, Mod2;
    Doubled(63);
    if !t.signed {
      if arg >= 0 {
        Mod2Same(arg, 64);
      } else {
        Mod2Add(arg, 64, 1);
        assert arg + 1 * Pow2(64) == Pow2(64) + arg;
        Mod2Same(Pow2(64) + arg, 64);
      }
    }
  }

  lemma Doubled(n: nat)
    ensures Pow2(n + 1) == 2 * Pow2(n)
  {}

  /** Fields are read from the high bit of a byte on: u8 at bit 4 of A5 0F is 50 ... */
  lemma ReadUnsignedExample()
    ensures Read([0xA5, 0x0F], 4, FieldType(false, 8)) == 0x50
  {
    var a: Bytes := [0xA5, 0x0F];
    assert !BitZ(a, 4) && BitZ(a, 5) && !BitZ(a, 6) && BitZ(a, 7);
    assert !BitZ(a, 8) && !BitZ(a, 9) && !BitZ(a, 10) && !BitZ(a, 11);
    hide BitZ;
    assert Field(a, 4, 2) == 1 && Field(a, 4, 4) == 5 && Field(a, 4, 6) == 20 && Field(a, 4, 8) == 80;
  }

  /** ... and i8 of FE is -2. */
  lemma ReadSignedExample()
    ensures Read([0xFE], 0, FieldType(true, 8)) == -2
  {
    var b: Bytes := [0xFE];
    assert BitZ(b, 0) && BitZ(b, 1) && BitZ(b, 2) && BitZ(b, 3) && BitZ(b, 4) && BitZ(b, 5) && BitZ(b, 6);
    assert !BitZ(b, 7);
    hide BitZ;
    assert Field(b, 0, 2) == 3 && Field(b, 0, 4) == 15 && Field(b, 0, 6) == 63 && Field(b, 0, 8) == 254;
    assert Pow2(7) == 128 && Pow2(8) == 256;
  }
}
