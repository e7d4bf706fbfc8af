/** The command bitmap of a selector in sixteen 64-bit words. */
module AclBitmap {
  const BITS: nat := 1024
  const WORDS: nat := 16

  function Mask(k: nat): bv64
    requires k < 64
  {
    1 << k
  }

  predicate Test(w: bv64, m: bv64) {
    w & m != 0
  }

  function With(w: bv64, m: bv64): bv64 {
    w | m
  }

  function Less(w: bv64, m: bv64): bv64 {
    w & !m
  }

  /** `ACLGetSelectorCommandBit`. */
  predicate GetBit(words: seq<bv64>, id: nat)
    requires |words| == WORDS && id < BITS
  {
    Test(words[id / 64], Mask(id % 64))
  }

  function PutBit(words: seq<bv64>, id: nat, value: bool): seq<bv64>
    requires |words| == WORDS && id < BITS
  {
    var w, m := words[id / 64], Mask(id % 64);
    words[id / 64 := if value then With(w, m) else Less(w, m)]
  }

  /** The bits of the bitmap, one by one. */
  function BitsOf(words: seq<bv64>): (r: seq<bool>)
    requires |words| == WORDS
    ensures |r| == BITS && forall id :: 0 <= id < BITS ==> r[id] == GetBit(words, id)
  {
    seq(BITS, id requires 0 <= id < BITS => GetBit(words, id))
  }

  // ------------------------------------------------------------------------------
  // One bit of a word
  // ------------------------------------------------------------------------------

  lemma MasksDiffer(a: nat, b: nat)
    requires a < 64 && b < 64
    ensures Test(Mask(a), Mask(b)) <==> a == b
  {}

  lemma OrAnd(w: bv64, m: bv64, n: bv64)
    ensures (w | m) & n == (w & n) | (m & n)
  {}

  lemma OrZero(x: bv64)
    ensures x | 0 == x
  {}

  lemma WithOther(w: bv64, m: bv64, n: bv64)
    requires !Test(m, n)
    ensures Test(With(w, m), n) == Test(w, n)
  {
    OrAnd(w, m, n);
    OrZero(w & n);
  }

  lemma AndAnd(w: bv64, m: bv64, n: bv64)
    ensures (w & !m) & n == (w & n) & !(m & n)
  {}

  lemma AndOnes(x: bv64)
    ensures x & !0 == x
  {}

  lemma LessOther(w: bv64, m: bv64, n: bv64)
    requires !Test(m, n)
    ensures Test(Less(w, m), n) == Test(w, n)
  {
    AndAnd(w, m, n);
    AndOnes(w & n);
  }

  lemma WithSelf(w: bv64, m: bv64)
    requires Test(m, m)
    ensures Test(With(w, m), m)
  {}

  lemma LessSelf(w: bv64, m: bv64)
    ensures !Test(Less(w, m), m)
  {}

  /** Packing into words is sound: setting one command's bit changes no other command's. */
  lemma PackedBit(words: seq<bv64>, id: nat, value: bool, other: nat)
    requires |words| == WORDS && id < BITS && other < BITS
    ensures GetBit(PutBit(words, id, value), other) == if id == other then value else GetBit(words, other)
  {
    hide Mask, Test, With, Less;
    var w, m, n := words[id / 64], Mask(id % 64), Mask(other % 64);
    if id / 64 == other / 64 {
      MasksDiffer(id % 64, other % 64);
      if id == other {
        WithSelf(w, m);
        LessSelf(w, m);
      } else {
        WithOther(w, m, n);
        LessOther(w, m, n);
      }
    }
  }

  lemma PackedBits(words: seq<bv64>, id: nat, value: bool)
    requires |words| == WORDS && id < BITS
    ensures BitsOf(PutBit(words, id, value)) == BitsOf(words)[id := value]
  {
    hide GetBit, With, Less, Mask;
    forall other | 0 <= other < BITS
      ensures BitsOf(PutBit(words, id, value))[other] == BitsOf(words)[id := value][other]
    {
      PackedBit(words, id, value, other);
    }
  }

  // ------------------------------------------------------------------------------
  // Whole bitmaps
  // ------------------------------------------------------------------------------

  /** The word that `memset` leaves. */
  function Filled(value: bool): bv64 {
    if value then 0xFFFF_FFFF_FFFF_FFFF else 0
  }

  lemma FilledBit(value: bool, k: nat)
    requires k < 64
    ensures Test(Filled(value), Mask(k)) == value
  {
    MasksDiffer(k, k);
    hide Mask;
    AndOnes(Mask(k));
    assert Filled(true) & Mask(k) == Mask(k);
  }

  lemma FilledBits(words: seq<bv64>, value: bool)
    requires |words| == WORDS && forall i :: 0 <= i < WORDS ==> words[i] == Filled(value)
    ensures forall id :: 0 <= id < BITS ==> BitsOf(words)[id] == value
  {
    hide Test, Mask, Filled;
    forall id | 0 <= id < BITS ensures BitsOf(words)[id] == value {
      FilledBit(value, id % 64);
    }
  }

  predicate Agree(a: bv64, b: bv64, k: nat)
    requires k < 64
  {
    Test(a, Mask(k)) == Test(b, Mask(k))
  }

  lemma SameByte0(a: bv64, b: bv64)
    requires forall k :: 0 <= k < 64 ==> Agree(a, b, k)
    ensures a & 0xFF == b & 0xFF
  {
    assert Agree(a, b, 0) && Agree(a, b, 1) && Agree(a, b, 2) && Agree(a, b, 3);
    assert Agree(a, b, 4) && Agree(a, b, 5) && Agree(a, b, 6) && Agree(a, b, 7);
  }

  lemma SameByte1(a: bv64, b: bv64)
    requires forall k :: 0 <= k < 64 ==> Agree(a, b, k)
    ensures a & 0xFF00 == b & 0xFF00
  {
    assert Agree(a, b, 8) && Agree(a, b, 9) && Agree(a, b, 10) && Agree(a, b, 11);
    assert Agree(a, b, 12) && Agree(a, b, 13) && Agree(a, b, 14) && Agree(a, b, 15);
  }

  lemma SameByte2(a: bv64, b: bv64)
    requires forall k :: 0 <= k < 64 ==> Agree(a, b, k)
    ensures a & 0xFF0000 == b & 0xFF0000
  {
    assert Agree(a, b, 16) && Agree(a, b, 17) && Agree(a, b, 18) && Agree(a, b, 19);
    assert Agree(a, b, 20) && Agree(a, b, 21) && Agree(a, b, 22) && Agree(a, b, 23);
  }

  lemma SameByte3(a: bv64, b: bv64)
    requires forall k :: 0 <= k < 64 ==> Agree(a, b, k)
    ensures a & 0xFF000000 == b & 0xFF000000
  {
    assert Agree(a, b, 24) && Agree(a, b, 25) && Agree(a, b, 26) && Agree(a, b, 27);
    assert Agree(a, b, 28) && Agree(a, b, 29) && Agree(a, b, 30) && Agree(a, b, 31);
  }

  lemma SameByte4(a: bv64, b: bv64)
    requires forall k :: 0 <= k < 64 ==> Agree(a, b, k)
    ensures a & 0xFF00000000 == b & 0xFF00000000
  {
    assert Agree(a, b, 32) && Agree(a, b, 33) && Agree(a, b, 34) && Agree(a, b, 35);
    assert Agree(a, b, 36) && Agree(a, b, 37) && Agree(a, b, 38) && Agree(a, b, 39);
  }

  lemma SameByte5(a: bv64, b: bv64)
    requires forall k :: 0 <= k < 64 ==> Agree(a, b, k)
    ensures a & 0xFF0000000000 == b & 0xFF0000000000
  {
    assert Agree(a, b, 40) && Agree(a, b, 41) && Agree(a, b, 42) && Agree(a, b, 43);
    assert Agree(a, b, 44) && Agree(a, b, 45) && Agree(a, b, 46) && Agree(a, b, 47);
  }

  lemma SameByte6(a: bv64, b: bv64)
    requires forall k :: 0 <= k < 64 ==> Agree(a, b, k)
    ensures a & 0xFF000000000000 == b & 0xFF000000000000
  {
    assert Agree(a, b, 48) && Agree(a, b, 49) && Agree(a, b, 50) && Agree(a, b, 51);
    assert Agree(a, b, 52) && Agree(a, b, 53) && Agree(a, b, 54) && Agree(a, b, 55);
  }

  lemma SameByte7(a: bv64, b: bv64)
    requires forall k :: 0 <= k < 64 ==> Agree(a, b, k)
    ensures a & 0xFF00000000000000 == b & 0xFF00000000000000
  {
    assert Agree(a, b, 56) && Agree(a, b, 57) && Agree(a, b, 58) && Agree(a, b, 59);
    assert Agree(a, b, 60) && Agree(a, b, 61) && Agree(a, b, 62) && Agree(a, b, 63);
  }

  lemma SameBytes(a: bv64, b: bv64)
    requires a & 0xFF == b & 0xFF && a & 0xFF00 == b & 0xFF00 && a & 0xFF0000 == b & 0xFF0000
    requires a & 0xFF000000 == b & 0xFF000000 && a & 0xFF00000000 == b & 0xFF00000000
    requires a & 0xFF0000000000 == b & 0xFF0000000000 && a & 0xFF000000000000 == b & 0xFF000000000000
    requires a & 0xFF00000000000000 == b & 0xFF00000000000000
    ensures a == b
  {}

  /** Words with the same bits are the same. */
  lemma SameWord(a: bv64, b: bv64)
    requires forall k :: 0 <= k < 64 ==> Agree(a, b, k)
    ensures a == b
  {
    hide Agree;
    SameByte0(a, b);
    SameByte1(a, b);
    SameByte2(a, b);
    SameByte3(a, b);
    SameByte4(a, b);
    SameByte5(a, b);
    SameByte6(a, b);
    SameByte7(a, b);
    SameBytes(a, b);
  }

  /** So `memcmp` of the words compares the bits. */
  lemma SameWords(a: seq<bv64>, b: seq<bv64>)
    requires |a| == |b| == WORDS
    ensures a == b <==> BitsOf(a) == BitsOf(b)
  {
    if BitsOf(a) == BitsOf(b) {
      hide Test, Mask;
      forall i | 0 <= i < WORDS ensures a[i] == b[i] {
        forall k | 0 <= k < 64 ensures Agree(a[i], b[i], k) {
          var id := 64 * i + k;
          assert id / 64 == i && id % 64 == k;
          assert BitsOf(a)[id] == BitsOf(b)[id];
        }
        SameWord(a[i], b[i]);
      }
    }
  }
}
