/** Bit strings as the bit commands see them: position 0 is the highest bit of the first byte. */
module Bits {
  type Bytes = seq<bv8>

  /** Bit `k` of a byte, counted from the highest. */
  predicate BitOf(b: bv8, k: nat)
    requires k < 8
  {
    (b >> (7 - k)) & 1 == 1
  }

  predicate Bit(s: Bytes, i: nat)
    requires i < 8 * |s|
  {
    BitOf(s[i / 8], i % 8)
  }

  /** The number of ones among the positions `i..j`. */
  function Ones(s: Bytes, i: nat, j: nat): (n: nat)
    requires i <= j <= 8 * |s|
    ensures n <= j - i
    decreases j
  {
    if i == j then 0 else Ones(s, i, j - 1) + if Bit(s, j - 1) then 1 else 0
  }

  lemma {:induction false} OnesSplit(s: Bytes, i: nat, j: nat, k: nat)
    requires i <= j <= k <= 8 * |s|
    ensures Ones(s, i, k) == Ones(s, i, j) + Ones(s, j, k)
    decreases k
  {
    hide Bit;
    if j < k {
      OnesSplit(s, i, j, k - 1);
    }
  }

  /** Equal bits have equal counts, wherever they stand. */
  lemma {:induction false} OnesMoved(s: Bytes, i: nat, t: Bytes, j: nat, n: nat)
    requires i + n <= 8 * |s| && j + n <= 8 * |t|
    requires forall k :: i <= k < i + n ==> Bit(s, k) == Bit(t, k - i + j)
    ensures Ones(s, i, i + n) == Ones(t, j, j + n)
    decreases n
  {
    hide Bit;
    if n > 0 {
      OnesMoved(s, i, t, j, n - 1);
      assert Bit(s, i + n - 1) == Bit(t, i + n - 1 - i + j);
    }
  }

  lemma OnesSlice(s: Bytes, a: nat, b: nat)
    requires a <= b <= |s|
    ensures Ones(s[a..b], 0, 8 * (b - a)) == Ones(s, 8 * a, 8 * b)
  {
    hide Bit, Ones;
    var t, n := s[a..b], 8 * (b - a);
    forall k | 0 <= k < n ensures Bit(t, k) == Bit(s, k - 0 + 8 * a) {
      BitSlice(s, a, b, k);
    }
    OnesMoved(t, 0, s, 8 * a, n);
  }

  lemma BitSlice(s: Bytes, a: nat, b: nat, k: nat)
    requires a <= b <= |s| && k < 8 * (b - a)
    ensures Bit(s[a..b], k) == Bit(s, k + 8 * a)
  {
    hide BitOf;
    assert (k + 8 * a) / 8 == k / 8 + a && (k + 8 * a) % 8 == k % 8;
  }

  lemma NoOnes(s: Bytes, i: nat)
    requires i <= 8 * |s|
    ensures Ones(s, i, i) == 0
  {}

  function One(b: bool): nat {
    if b then 1 else 0
  }

  /** The ones among the first `m` bits of a byte. */
  function Front(b: bv8, m: nat): (n: nat)
    requires m <= 8
    ensures n <= m
  {
    if m == 0 then 0 else Front(b, m - 1) + One(BitOf(b, m - 1))
  }

  /** The number of ones of a byte. */
  function Weight(b: bv8): nat {
    Front(b, 8)
  }

  lemma OnesNext(s: Bytes, k: nat, m: nat)
    requires k < |s| && m < 8
    ensures Ones(s, 8 * k, 8 * k + m + 1) == Ones(s, 8 * k, 8 * k + m) + One(BitOf(s[k], m))
  {
    hide BitOf;
    assert (8 * k + m) / 8 == k && (8 * k + m) % 8 == m;
  }

  lemma {:induction false} OnesFront(s: Bytes, k: nat, m: nat)
    requires k < |s| && m <= 8
    ensures Ones(s, 8 * k, 8 * k + m) == Front(s[k], m)
  {
    hide Bit, BitOf;
    if m > 0 {
      OnesFront(s, k, m - 1);
      OnesNext(s, k, m - 1);
    }
  }

  lemma OnesOfByte(s: Bytes, k: nat)
    requires k < |s|
    ensures Ones(s, 8 * k, 8 * k + 8) == Weight(s[k])
  {
    OnesFront(s, k, 8);
  }

  // ------------------------------------------------------------------------------
  // Masks for the edges of a range of bits
  // ------------------------------------------------------------------------------

  /** The first `k` bits of a byte. */
  function FirstMask(k: nat): bv8
    requires k < 8
  {
    !((((1 as bv16) << (8 - k)) - 1) as bv8)
  }

  /** The bits of a byte after bit `m`. */
  function LastMask(m: nat): bv8
    requires m < 8
  {
    ((1 as bv8) << (7 - m)) - 1
  }

  lemma FirstMasked(b: bv8, k: nat, j: nat)
    requires k < 8 && j < 8
    ensures BitOf(b & FirstMask(k), j) <==> j < k && BitOf(b, j)
  {}

  lemma LastMasked(b: bv8, m: nat, j: nat)
    requires m < 8 && j < 8
    ensures BitOf(b & LastMask(m), j) <==> j > m && BitOf(b, j)
  {}

  lemma {:induction false} FirstFront(b: bv8, c: bv8, k: nat, j: nat)
    requires k < 8 && j <= 8 && c == b & FirstMask(k)
    ensures Front(c, j) == Front(b, if j <= k then j else k)
  {
    hide BitOf, FirstMask;
    if j > 0 {
      FirstFront(b, c, k, j - 1);
      FirstMasked(b, k, j - 1);
    }
  }

  lemma {:induction false} LastFront(b: bv8, c: bv8, m: nat, j: nat)
    requires m < 8 && j <= 8 && c == b & LastMask(m)
    ensures Front(c, j) == if j <= m + 1 then 0 else Front(b, j) - Front(b, m + 1)
  {
    hide BitOf, LastMask;
    if j > 0 {
      LastFront(b, c, m, j - 1);
      LastMasked(b, m, j - 1);
    }
  }

  function And(b: bv8, m: bv8): bv8 {
    b & m
  }

  /** The ones outside the edges of a range. */
  lemma EdgeWeights(b: bv8, k: nat)
    requires k < 8
    ensures Weight(And(b, FirstMask(k))) == Front(b, k)
    ensures Weight(And(b, LastMask(k))) == Weight(b) - Front(b, k + 1)
  {
    hide BitOf, FirstMask, LastMask;
    FirstFront(b, b & FirstMask(k), k, 8);
    LastFront(b, b & LastMask(k), k, 8);
  }
}
