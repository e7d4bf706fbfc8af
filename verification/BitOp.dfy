/** BITOP: the operation on whole words, then byte by byte with an early exit. */
module BitOp {
  import opened Bits

  datatype Op = And | Or | Xor | Not

  /** Byte `j` of a source; a missing or short one counts as followed by zeros. */
  function ByteAt(s: Bytes, j: nat): bv8 {
    if j < |s| then s[j] else 0
  }

  function Combine(op: Op, a: bv8, b: bv8): bv8 {
    match op
    case And => a & b
    case Or => a | b
    case Xor => a ^ b
    case Not => a
  }

  function Start(op: Op, b: bv8): bv8 {
    if op == Not then Flip(b) else b
  }

  /** The reference: byte `j` of the first `n` sources, folded from the left. */
  function Fold(op: Op, src: seq<Bytes>, j: nat, n: nat): bv8
    requires 0 < n <= |src|
  {
    if n == 1 then Start(op, ByteAt(src[0], j)) else Combine(op, Fold(op, src, j, n - 1), ByteAt(src[n - 1], j))
  }

  function MaxLen(src: seq<Bytes>): nat {
    if |src| == 0 then 0
    else var m := MaxLen(src[..|src| - 1]); if |src[|src| - 1]| > m then |src[|src| - 1]| else m
  }

  lemma {:induction false} MaxLenIs(src: seq<Bytes>)
    ensures forall i :: 0 <= i < |src| ==> |src[i]| <= MaxLen(src)
    ensures |src| > 0 ==> exists i :: 0 <= i < |src| && |src[i]| == MaxLen(src)
  {
    if |src| > 0 {
      MaxLenIs(src[..|src| - 1]);
    }
  }

  // ------------------------------------------------------------------------------
  // Words
  // ------------------------------------------------------------------------------

  /** An unsigned long of a little-endian memory. */
  function Word(b0: bv8, b1: bv8, b2: bv8, b3: bv8, b4: bv8, b5: bv8, b6: bv8, b7: bv8): bv64 {
    (b0 as bv64) | ((b1 as bv64) << 8) | ((b2 as bv64) << 16) | ((b3 as bv64) << 24) |
    ((b4 as bv64) << 32) | ((b5 as bv64) << 40) | ((b6 as bv64) << 48) | ((b7 as bv64) << 56)
  }

  function Load(s: Bytes, o: nat): bv64
    requires o + 8 <= |s|
  {
    Word(s[o], s[o + 1], s[o + 2], s[o + 3], s[o + 4], s[o + 5], s[o + 6], s[o + 7])
  }

  /** The bytes of a word, as a store puts them into memory. */
  function Unload(w: bv64): (r: Bytes)
    ensures |r| == 8
  {
    [(w & 0xff) as bv8, ((w >> 8) & 0xff) as bv8, ((w >> 16) & 0xff) as bv8, ((w >> 24) & 0xff) as bv8,
     ((w >> 32) & 0xff) as bv8, ((w >> 40) & 0xff) as bv8, ((w >> 48) & 0xff) as bv8, (w >> 56) as bv8]
  }

  lemma UnloadWord(b0: bv8, b1: bv8, b2: bv8, b3: bv8, b4: bv8, b5: bv8, b6: bv8, b7: bv8)
    ensures Unload(Word(b0, b1, b2, b3, b4, b5, b6, b7)) == [b0, b1, b2, b3, b4, b5, b6, b7]
  {}

  function CombineWords(op: Op, a: bv64, b: bv64): bv64 {
    match op
    case And => a & b
    case Or => a | b
    case Xor => a ^ b
    case Not => a
  }

  lemma WordAnd(a0: bv8, a1: bv8, a2: bv8, a3: bv8, a4: bv8, a5: bv8, a6: bv8, a7: bv8,
                b0: bv8, b1: bv8, b2: bv8, b3: bv8, b4: bv8, b5: bv8, b6: bv8, b7: bv8)
    ensures Word(a0, a1, a2, a3, a4, a5, a6, a7) & Word(b0, b1, b2, b3, b4, b5, b6, b7) ==
            Word(a0 & b0, a1 & b1, a2 & b2, a3 & b3, a4 & b4, a5 & b5, a6 & b6, a7 & b7)
  {}

  lemma WordOr(a0: bv8, a1: bv8, a2: bv8, a3: bv8, a4: bv8, a5: bv8, a6: bv8, a7: bv8,
                b0: bv8, b1: bv8, b2: bv8, b3: bv8, b4: bv8, b5: bv8, b6: bv8, b7: bv8)
    ensures Word(a0, a1, a2, a3, a4, a5, a6, a7) | Word(b0, b1, b2, b3, b4, b5, b6, b7) ==
            Word(a0 | b0, a1 | b1, a2 | b2, a3 | b3, a4 | b4, a5 | b5, a6 | b6, a7 | b7)
  {}

  lemma WordXor(a0: bv8, a1: bv8, a2: bv8, a3: bv8, a4: bv8, a5: bv8, a6: bv8, a7: bv8,
                b0: bv8, b1: bv8, b2: bv8, b3: bv8, b4: bv8, b5: bv8, b6: bv8, b7: bv8)
    ensures Word(a0, a1, a2, a3, a4, a5, a6, a7) ^ Word(b0, b1, b2, b3, b4, b5, b6, b7) ==
            Word(a0 ^ b0, a1 ^ b1, a2 ^ b2, a3 ^ b3, a4 ^ b4, a5 ^ b5, a6 ^ b6, a7 ^ b7)
  {}

  /** Combining two words combines their bytes. */
  predicate WordsCombine(op: Op, a0: bv8, a1: bv8, a2: bv8, a3: bv8, a4: bv8, a5: bv8, a6: bv8, a7: bv8,
                         b0: bv8, b1: bv8, b2: bv8, b3: bv8, b4: bv8, b5: bv8, b6: bv8, b7: bv8)
  {
    CombineWords(op, Word(a0, a1, a2, a3, a4, a5, a6, a7), Word(b0, b1, b2, b3, b4, b5, b6, b7)) ==
    Word(Combine(op, a0, b0), Combine(op, a1, b1), Combine(op, a2, b2), Combine(op, a3, b3),
         Combine(op, a4, b4), Combine(op, a5, b5), Combine(op, a6, b6), Combine(op, a7, b7))
  }

  lemma BytesAnd(a: bv8, b: bv8)
    ensures Combine(And, a, b) == a & b
  {}

  lemma CombinesAnd(a0: bv8, a1: bv8, a2: bv8, a3: bv8, a4: bv8, a5: bv8, a6: bv8, a7: bv8,
                    b0: bv8, b1: bv8, b2: bv8, b3: bv8, b4: bv8, b5: bv8, b6: bv8, b7: bv8)
    ensures WordsCombine(And, a0, a1, a2, a3, a4, a5, a6, a7, b0, b1, b2, b3, b4, b5, b6, b7)
  {
    hide Word, Combine;
    BytesAnd(a0, b0);
    BytesAnd(a1, b1);
    BytesAnd(a2, b2);
    BytesAnd(a3, b3);
    BytesAnd(a4, b4);
    BytesAnd(a5, b5);
    BytesAnd(a6, b6);
    BytesAnd(a7, b7);
    WordAnd(a0, a1, a2, a3, a4, a5, a6, a7, b0, b1, b2, b3, b4, b5, b6, b7);
  }

  lemma BytesOr(a: bv8, b: bv8)
    ensures Combine(Or, a, b) == a | b
  {}

  lemma CombinesOr(a0: bv8, a1: bv8, a2: bv8, a3: bv8, a4: bv8, a5: bv8, a6: bv8, a7: bv8,
                    b0: bv8, b1: bv8, b2: bv8, b3: bv8, b4: bv8, b5: bv8, b6: bv8, b7: bv8)
    ensures WordsCombine(Or, a0, a1, a2, a3, a4, a5, a6, a7, b0, b1, b2, b3, b4, b5, b6, b7)
  {
    hide Word, Combine;
    BytesOr(a0, b0);
    BytesOr(a1, b1);
    BytesOr(a2, b2);
    BytesOr(a3, b3);
    BytesOr(a4, b4);
    BytesOr(a5, b5);
    BytesOr(a6, b6);
    BytesOr(a7, b7);
    WordOr(a0, a1, a2, a3, a4, a5, a6, a7, b0, b1, b2, b3, b4, b5, b6, b7);
  }

  lemma BytesXor(a: bv8, b: bv8)
    ensures Combine(Xor, a, b) == a ^ b
  {}

  lemma CombinesXor(a0: bv8, a1: bv8, a2: bv8, a3: bv8, a4: bv8, a5: bv8, a6: bv8, a7: bv8,
                    b0: bv8, b1: bv8, b2: bv8, b3: bv8, b4: bv8, b5: bv8, b6: bv8, b7: bv8)
    ensures WordsCombine(Xor, a0, a1, a2, a3, a4, a5, a6, a7, b0, b1, b2, b3, b4, b5, b6, b7)
  {
    hide Word, Combine;
    BytesXor(a0, b0);
    BytesXor(a1, b1);
    BytesXor(a2, b2);
    BytesXor(a3, b3);
    BytesXor(a4, b4);
    BytesXor(a5, b5);
    BytesXor(a6, b6);
    BytesXor(a7, b7);
    WordXor(a0, a1, a2, a3, a4, a5, a6, a7, b0, b1, b2, b3, b4, b5, b6, b7);
  }

  lemma WordCombines(op: Op, a0: bv8, a1: bv8, a2: bv8, a3: bv8, a4: bv8, a5: bv8, a6: bv8, a7: bv8,
                     b0: bv8, b1: bv8, b2: bv8, b3: bv8, b4: bv8, b5: bv8, b6: bv8, b7: bv8)
    requires op != Not
    ensures WordsCombine(op, a0, a1, a2, a3, a4, a5, a6, a7, b0, b1, b2, b3, b4, b5, b6, b7)
  {
    hide WordsCombine;
    match op
    case And => CombinesAnd(a0, a1, a2, a3, a4, a5, a6, a7, b0, b1, b2, b3, b4, b5, b6, b7);
    case Or => CombinesOr(a0, a1, a2, a3, a4, a5, a6, a7, b0, b1, b2, b3, b4, b5, b6, b7);
    case Xor => CombinesXor(a0, a1, a2, a3, a4, a5, a6, a7, b0, b1, b2, b3, b4, b5, b6, b7);
  }

  function Flip(b: bv8): bv8 {
    !b
  }

  function FlipWord(w: bv64): bv64 {
    !w
  }

  lemma WordFlips(b0: bv8, b1: bv8, b2: bv8, b3: bv8, b4: bv8, b5: bv8, b6: bv8, b7: bv8)
    ensures FlipWord(Word(b0, b1, b2, b3, b4, b5, b6, b7)) ==
            Word(Flip(b0), Flip(b1), Flip(b2), Flip(b3), Flip(b4), Flip(b5), Flip(b6), Flip(b7))
  {
    hide Word;
    WordNot(b0, b1, b2, b3, b4, b5, b6, b7);
  }

  lemma WordNot(b0: bv8, b1: bv8, b2: bv8, b3: bv8, b4: bv8, b5: bv8, b6: bv8, b7: bv8)
    ensures !Word(b0, b1, b2, b3, b4, b5, b6, b7) == Word(!b0, !b1, !b2, !b3, !b4, !b5, !b6, !b7)
  {}

  /** One word of the result is combined with one word of a source. */
  lemma CombinedBytes(op: Op, r: Bytes, s: Bytes, o: nat)
    requires o + 8 <= |r| && o + 8 <= |s| && op != Not
    ensures var u := Unload(CombineWords(op, Load(r, o), Load(s, o)));
            forall k :: 0 <= k < 8 ==> u[k] == Combine(op, r[o + k], s[o + k])
  {
    hide Word, Unload, Combine, CombineWords;
    WordCombines(op, r[o], r[o + 1], r[o + 2], r[o + 3], r[o + 4], r[o + 5], r[o + 6], r[o + 7],
                 s[o], s[o + 1], s[o + 2], s[o + 3], s[o + 4], s[o + 5], s[o + 6], s[o + 7]);
    UnloadWord(Combine(op, r[o], s[o]), Combine(op, r[o + 1], s[o + 1]), Combine(op, r[o + 2], s[o + 2]),
               Combine(op, r[o + 3], s[o + 3]), Combine(op, r[o + 4], s[o + 4]), Combine(op, r[o + 5], s[o + 5]),
               Combine(op, r[o + 6], s[o + 6]), Combine(op, r[o + 7], s[o + 7]));
  }

  lemma FlippedBytes(r: Bytes, o: nat)
    requires o + 8 <= |r|
    ensures var u := Unload(FlipWord(Load(r, o))); forall k :: 0 <= k < 8 ==> u[k] == Flip(r[o + k])
  {
    hide Word, Unload, Flip, FlipWord;
    WordFlips(r[o], r[o + 1], r[o + 2], r[o + 3], r[o + 4], r[o + 5], r[o + 6], r[o + 7]);
    UnloadWord(Flip(r[o]), Flip(r[o + 1]), Flip(r[o + 2]), Flip(r[o + 3]), Flip(r[o + 4]), Flip(r[o + 5]),
        Flip(r[o + 6]), Flip(r[o + 7]));
  }

  method Store(res: array<bv8>, o: nat, w: bv64)
    requires o + 8 <= res.Length
    modifies res
    ensures forall k :: 0 <= k < res.Length ==> res[k] == if o <= k < o + 8 then Unload(w)[k - o] else old(res[k])
  {
    hide Unload;
    var u := Unload(w);
    for i := 0 to 8
      invariant forall k :: 0 <= k < res.Length ==> res[k] == if o <= k < o + i then u[k - o] else old(res[k])
    {
      res[o + i] := u[i];
    }
  }

  // ------------------------------------------------------------------------------
  // The fast path
  // ------------------------------------------------------------------------------

  /** Four words of the result, from byte `o` on, are combined with a source. */
  method CombineBlock(res: array<bv8>, o: nat, op: Op, s: Bytes)
    requires o + 32 <= res.Length && o + 32 <= |s| && op != Not
    modifies res
    ensures forall k :: 0 <= k < res.Length ==>
              res[k] == if o <= k < o + 32 then Combine(op, old(res[k]), s[k]) else old(res[k])
  {
    hide Combine, CombineWords, Load, Unload;
    for n := 0 to 4
      invariant forall k :: 0 <= k < res.Length ==>
                  res[k] == if o <= k < o + 8 * n then Combine(op, old(res[k]), s[k]) else old(res[k])
    {
      CombinedBytes(op, res[..], s, o + 8 * n);
      Store(res, o + 8 * n, CombineWords(op, Load(res[..], o + 8 * n), Load(s, o + 8 * n)));
    }
  }

  method FlipBlock(res: array<bv8>, o: nat)
    requires o + 32 <= res.Length
    modifies res
    ensures forall k :: 0 <= k < res.Length ==> res[k] == if o <= k < o + 32 then Flip(old(res[k])) else old(res[k])
  {
    hide Flip, FlipWord, Load, Unload;
    for n := 0 to 4
      invariant forall k :: 0 <= k < res.Length ==>
                  res[k] == if o <= k < o + 8 * n then Flip(old(res[k])) else old(res[k])
    {
      FlippedBytes(res[..], o + 8 * n);
      Store(res, o + 8 * n, FlipWord(Load(res[..], o + 8 * n)));
    }
  }

  /** The bytes `from..to` of the result are those of the fold over `n` sources. */
  ghost predicate Holds(res: Bytes, op: Op, src: seq<Bytes>, from: nat, to: nat, n: nat)
    requires 0 < n <= |src|
  {
    to <= |res| && forall k :: from <= k < to ==> res[k] == Fold(op, src, k, n)
  }

  lemma FoldFirst(op: Op, src: seq<Bytes>, k: nat)
    requires |src| > 0 && k < |src[0]|
    ensures Fold(op, src, k, 1) == Start(op, src[0][k])
  {}

  lemma FoldNext(op: Op, src: seq<Bytes>, k: nat, n: nat)
    requires 0 < n < |src| && k < |src[n]|
    ensures Fold(op, src, k, n + 1) == Combine(op, Fold(op, src, k, n), src[n][k])
  {
    hide Combine;
  }

  predicate LongEnough(src: seq<Bytes>, n: nat) {
    forall i :: 0 <= i < |src| ==> |src[i]| >= n
  }

  /** One round: 32 bytes of all sources. */
  method Round(res: array<bv8>, op: Op, src: seq<Bytes>, j: nat)
    requires |src| > 0 && (op == Not ==> |src| == 1) && j + 32 <= res.Length && LongEnough(src, j + 32)
    requires forall k :: j <= k < j + 32 ==> res[k] == src[0][k]
    modifies res
    ensures Holds(res[..], op, src, j, j + 32, |src|)
    ensures forall k :: 0 <= k < res.Length && !(j <= k < j + 32) ==> res[k] == old(res[k])
  {
    hide Fold, Combine, Flip;
    if op == Not {
      FlipBlock(res, j);
      forall k | j <= k < j + 32 ensures res[..][k] == Fold(op, src, k, 1) {
        FoldFirst(op, src, k);
      }
    } else {
      forall k | j <= k < j + 32 ensures res[..][k] == Fold(op, src, k, 1) {
        FoldFirst(op, src, k);
      }
      var i := 1;
      while i < |src|
        invariant 1 <= i <= |src| && Holds(res[..], op, src, j, j + 32, i)
        invariant forall k :: 0 <= k < res.Length && !(j <= k < j + 32) ==> res[k] == old(res[k])
      {
        ghost var before := res[..];
        CombineBlock(res, j, op, src[i]);
        forall k | j <= k < j + 32 ensures res[..][k] == Fold(op, src, k, i + 1) {
          FoldNext(op, src, k, i);
          assert before[k] == Fold(op, src, k, i);
        }
        i := i + 1;
      }
    }
  }

  /** The fast path: as long as all sources have 32 more bytes. */
  method FastPath(res: array<bv8>, op: Op, src: seq<Bytes>, min: nat) returns (j: nat)
    requires |src| > 0 && (op == Not ==> |src| == 1) && min <= res.Length && LongEnough(src, min)
    modifies res
    ensures j <= min && Holds(res[..], op, src, 0, j, |src|)
  {
    hide Fold;
    forall k | 0 <= k < min {
      res[k] := src[0][k];
    }
    j := 0;
    var minlen := min;
    while minlen >= 32
      invariant j + minlen == min && Holds(res[..], op, src, 0, j, |src|)
      invariant forall k :: j <= k < min ==> res[k] == src[0][k]
    {
      ghost var before := res[..];
      assert LongEnough(src, j + 32);
      Round(res, op, src, j);
      forall k | 0 <= k < j + 32 ensures res[..][k] == Fold(op, src, k, |src|) {
        if k < j {
          assert res[k] == before[k];
        }
      }
      j := j + 32;
      minlen := minlen - 32;
    }
  }

  // ------------------------------------------------------------------------------
  // The tail, and the whole command
  // ------------------------------------------------------------------------------

  /** Once an AND is zero or an OR all ones, further sources do not change it. */
  predicate Settled(op: Op, b: bv8) {
    (op == And && b == 0) || (op == Or && b == 0xff)
  }

  lemma SettledStays(op: Op, a: bv8, b: bv8)
    requires Settled(op, a)
    ensures Combine(op, a, b) == a
  {}

  lemma {:induction false} SettledFold(op: Op, src: seq<Bytes>, k: nat, i: nat, n: nat)
    requires 0 < i <= n <= |src| && Settled(op, Fold(op, src, k, i))
    ensures Fold(op, src, k, n) == Fold(op, src, k, i)
    decreases n
  {
    hide Combine;
    if i < n {
      SettledFold(op, src, k, i, n - 1);
      SettledStays(op, Fold(op, src, k, n - 1), ByteAt(src[n - 1], k));
    }
  }

  /** One byte of the tail. */
  method TailByte(op: Op, src: seq<Bytes>, j: nat) returns (output: bv8)
    requires |src| > 0
    ensures output == Fold(op, src, j, |src|)
  {
    hide Combine, Flip, Settled;
    output := Start(op, ByteAt(src[0], j));
    var i := 1;
    while i < |src|
      invariant 1 <= i <= |src| && output == Fold(op, src, j, i)
    {
      output := Combine(op, output, ByteAt(src[i], j));
      i := i + 1;
      if Settled(op, output) {
        SettledFold(op, src, j, i, |src|);
        return;
      }
    }
  }

  /** A source key: missing, or a string. */
  datatype Source = NoKey | Str(bytes: Bytes)

  function BytesOf(s: Source): Bytes {
    if s.NoKey? then [] else s.bytes
  }

  function Strings(keys: seq<Source>): (r: seq<Bytes>)
    ensures |r| == |keys| && forall i :: 0 <= i < |keys| ==> r[i] == BytesOf(keys[i])
  {
    seq(|keys|, i requires 0 <= i < |keys| => BytesOf(keys[i]))
  }

  /** The longest and the shortest length, as the lookup loop finds them. */
  method Lengths(keys: seq<Source>) returns (maxlen: nat, minlen: nat)
    ensures maxlen == MaxLen(Strings(keys))
    ensures |keys| > 0 ==> LongEnough(Strings(keys), minlen)
    ensures |keys| > 0 ==> exists i :: 0 <= i < |keys| && |Strings(keys)[i]| == minlen
  {
    maxlen, minlen := 0, 0;
    var src := Strings(keys);
    assert src[..0] == [];
    for j := 0 to |keys|
      invariant maxlen == MaxLen(src[..j])
      invariant j > 0 ==> forall i :: 0 <= i < j ==> |src[i]| >= minlen
      invariant j == 0 ==> minlen == 0
      invariant j > 0 ==> exists i :: 0 <= i < j && |src[i]| == minlen
    {
      assert src[..j + 1][..j] == src[..j];
      if keys[j].NoKey? {
        minlen := 0;
        assert |src[j]| == 0;
      } else {
        var len := |keys[j].bytes|;
        if len > maxlen {
          maxlen := len;
        }
        if j == 0 || len < minlen {
          minlen := len;
        }
      }
    }
    assert src[..|keys|] == src;
  }

  lemma LongestKey(keys: seq<Source>)
    requires |keys| > 0
    ensures var n := MaxLen(Strings(keys));
            && (forall i :: 0 <= i < |keys| && keys[i].Str? ==> |keys[i].bytes| <= n)
            && (n > 0 ==> exists i :: 0 <= i < |keys| && keys[i].Str? && |keys[i].bytes| == n)
  {
    hide MaxLen;
    var src := Strings(keys);
    MaxLenIs(src);
    var i :| 0 <= i < |src| && |src[i]| == MaxLen(src);
    assert MaxLen(src) > 0 ==> keys[i].Str? && |keys[i].bytes| == MaxLen(src);
    forall j | 0 <= j < |keys| && keys[j].Str? ensures |keys[j].bytes| <= MaxLen(src) {
      assert |src[j]| <= MaxLen(src);
    }
  }

  /** BITOP: the result has the length of the longest source, and every byte is the fold of the
      sources' bytes there, short and missing sources counting as zeros. */
  method Compute(op: Op, keys: seq<Source>) returns (out: Bytes)
    requires |keys| > 0 && (op == Not ==> |keys| == 1)
    ensures var src := Strings(keys);
            |out| == MaxLen(src) && forall k :: 0 <= k < |out| ==> out[k] == Fold(op, src, k, |src|)
    ensures forall i :: 0 <= i < |keys| && keys[i].Str? ==> |keys[i].bytes| <= |out|
    ensures |out| > 0 ==> exists i :: 0 <= i < |keys| && keys[i].Str? && |keys[i].bytes| == |out|
  {
    hide Fold, MaxLen;
    var src := Strings(keys);
    var maxlen, minlen := Lengths(keys);
    MaxLenIs(src);
    LongestKey(keys);
    assert |src[0]| >= minlen;
    var res := new bv8[maxlen](_ => 0);
    var j := 0;
    if minlen >= 32 && |src| <= 16 {
      j := FastPath(res, op, src, minlen);
    }
    while j < maxlen
      invariant j <= maxlen && Holds(res[..], op, src, 0, j, |src|)
    {
      ghost var before := res[..];
      var b := TailByte(op, src, j);
      res[j] := b;
      forall k | 0 <= k < j + 1 ensures res[..][k] == Fold(op, src, k, |src|) {
        if k < j {
          assert res[k] == before[k];
        }
      }
      j := j + 1;
    }
    out := res[..];
  }

  // ------------------------------------------------------------------------------
  // What the fold means bit by bit
  // ------------------------------------------------------------------------------

  /** A string has the bit: there is such a byte, and it is set there. */
  predicate Has(s: Bytes, k: nat, b: nat)
    requires b < 8
  {
    k < |s| && BitOf(s[k], b)
  }

  lemma HasIs(s: Bytes, k: nat, b: nat)
    requires b < 8
    ensures Has(s, k, b) <==> BitOf(ByteAt(s, k), b)
  {}

  /** The number of sources among the first `n` that have the bit. */
  function Having(src: seq<Bytes>, k: nat, b: nat, n: nat): (r: nat)
    requires n <= |src| && b < 8
    ensures r <= n
  {
    if n == 0 then 0 else Having(src, k, b, n - 1) + One(Has(src[n - 1], k, b))
  }

  function Both(x: bv8, y: bv8): bv8 {
    x & y
  }

  function Either(x: bv8, y: bv8): bv8 {
    x | y
  }

  lemma BothBits(x: bv8, y: bv8, b: nat)
    requires b < 8
    ensures BitOf(Both(x, y), b) <==> BitOf(x, b) && BitOf(y, b)
  {
    if b == 0 {
    } else if b == 1 {
    } else if b == 2 {
    } else if b == 3 {
    } else if b == 4 {
    } else if b == 5 {
    } else if b == 6 {
    } else {
    }
  }

  lemma EitherBits(x: bv8, y: bv8, b: nat)
    requires b < 8
    ensures BitOf(Either(x, y), b) <==> BitOf(x, b) || BitOf(y, b)
  {
    if b == 0 {
    } else if b == 1 {
    } else if b == 2 {
    } else if b == 3 {
    } else if b == 4 {
    } else if b == 5 {
    } else if b == 6 {
    } else {
    }
  }

  lemma ShiftXor(x: bv8, y: bv8, k: nat)
    requires k < 8
    ensures (x ^ y) >> k == (x >> k) ^ (y >> k)
  {}

  lemma LowXor(p: bv8, q: bv8)
    ensures (p ^ q) & 1 == 1 <==> (p & 1 == 1) != (q & 1 == 1)
  {}

  lemma XorBits(x: bv8, y: bv8, b: nat)
    requires b < 8
    ensures BitOf(x ^ y, b) <==> BitOf(x, b) != BitOf(y, b)
  {
    ShiftXor(x, y, 7 - b);
    LowXor(x >> (7 - b), y >> (7 - b));
  }

  lemma CombineIs(x: bv8, y: bv8)
    ensures Combine(And, x, y) == Both(x, y) && Combine(Or, x, y) == Either(x, y) && Combine(Xor, x, y) == x ^ y
  {
    hide Combine;
    BytesAnd(x, y);
    BytesOr(x, y);
    BytesXor(x, y);
  }

  lemma CombineBits(op: Op, x: bv8, y: bv8, b: nat)
    requires b < 8
    ensures op == And ==> (BitOf(Combine(op, x, y), b) <==> BitOf(x, b) && BitOf(y, b))
    ensures op == Or ==> (BitOf(Combine(op, x, y), b) <==> BitOf(x, b) || BitOf(y, b))
    ensures op == Xor ==> (BitOf(Combine(op, x, y), b) <==> BitOf(x, b) != BitOf(y, b))
  {
    hide BitOf, Combine, Both, Either;
    CombineIs(x, y);
    BothBits(x, y, b);
    EitherBits(x, y, b);
    XorBits(x, y, b);
  }

  lemma FlipBits(x: bv8, b: nat)
    requires b < 8
    ensures BitOf(Flip(x), b) <==> !BitOf(x, b)
  {}

  /** AND is every source, OR some source, XOR an odd number of sources. */
  lemma {:induction false} FoldMeans(op: Op, src: seq<Bytes>, k: nat, b: nat, n: nat)
    requires b < 8 && 0 < n <= |src|
    ensures var bit, count := BitOf(Fold(op, src, k, n), b), Having(src, k, b, n);
            && (op == And ==> (bit <==> count == n))
            && (op == Or ==> (bit <==> count > 0))
            && (op == Xor ==> (bit <==> count % 2 == 1))
            && (op == Not && n == 1 ==> (bit <==> count == 0))
  {
    hide BitOf, Combine, Flip, Has;
    HasIs(src[n - 1], k, b);
    if n == 1 {
      FlipBits(ByteAt(src[0], k), b);
      assert Having(src, k, b, 0) == 0;
    } else {
      FoldMeans(op, src, k, b, n - 1);
      CombineBits(op, Fold(op, src, k, n - 1), ByteAt(src[n - 1], k), b);
    }
  }
}
