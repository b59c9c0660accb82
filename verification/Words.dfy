/** Packed words: an unsigned integer holding two bits for each trit, trit 0 lowest.
    Codes 0, 1, 2 are the trits -1, 0, +1; code 3 is read as +1. */
module Words {
  import opened BitOps
  import opened Trits

  function TritToBits(t: Trit): nat {
    if t < 0 then 0 else if t == 0 then 1 else 2
  }

  function BitsToTrit(bits: nat): Trit {
    if bits == 0 then -1 else if bits == 1 then 0 else 1
  }

  /** The two bits of trit idx. */
  function GetBits(packed: nat, idx: nat): nat {
    BitAnd(Shr(packed, 2 * idx), 3)
  }

  function GetTrit(packed: nat, idx: nat): Trit {
    BitsToTrit(GetBits(packed, idx))
  }

  /** What `packed & ~mask` keeps. */
  function Keep(packed: nat, idx: nat, width: nat): nat
    requires 2 * idx + 2 <= width && packed < Pow2(width)
  {
    MaskFits(idx, width);
    BitAnd(packed, BitNot(Shl(3, 2 * idx), width))
  }

  /** Overwrite trit idx of a word kept in `width` bits. */
  function SetTrit(packed: nat, idx: nat, trit: Trit, width: nat): nat
    requires 2 * idx + 2 <= width && packed < Pow2(width)
  {
    BitOr(Keep(packed, idx, width), Shl(TritToBits(trit), 2 * idx))
  }

  /** The n low trits of a word. */
  function TritsOf(packed: nat, n: nat): (ts: seq<Trit>)
    ensures |ts| == n
  {
    seq(n, i requires 0 <= i < n => GetTrit(packed, i))
  }

  /** The word that holds the given trits and nothing else. */
  function Pack(ts: seq<Trit>): nat {
    if ts == [] then 0 else TritToBits(ts[0]) + 4 * Pack(ts[1..])
  }

  /** No trit among the n low ones has the spare code, and nothing lies above them. */
  predicate Canonical(packed: nat, n: nat) {
    packed < Pow2(2 * n) && forall i: nat :: i < n ==> GetBits(packed, i) != 3
  }

  /** The canonical word with the same n trits. */
  function Canon(packed: nat, n: nat): nat {
    Pack(TritsOf(packed, n))
  }

  lemma {:induction false} MaskFits(idx: nat, width: nat)
    requires 2 * idx + 2 <= width
    ensures Shl(3, 2 * idx) < Pow2(width)
  {
    assert Pow2(2) == 4;
    ShlBound(3, 2, 2 * idx);
    Pow2Mono(2 * idx + 2, width);
  }

  // Reading one trit

  lemma GetBitsLow(packed: nat)
    ensures GetBits(packed, 0) == packed % 4
  {
    MaskTwo(packed);
  }

  lemma GetBitsUp(packed: nat, idx: nat)
    requires idx > 0
    ensures GetBits(packed, idx) == GetBits(packed / 4, idx - 1)
  {
    ShrPair(packed, 2 * idx);
  }

  // Writing one trit

  lemma NotPair(x: nat, width: nat)
    requires width >= 2 && x < Pow2(width)
    ensures x / 4 < Pow2(width - 2)
    ensures BitNot(x, width) % 4 == 3 - x % 4
    ensures BitNot(x, width) / 4 == BitNot(x / 4, width - 2)
  {
    assert Pow2(width) == 2 * Pow2(width - 1) == 4 * Pow2(width - 2);
  }

  lemma AndDigit(c: nat)
    requires c < 4
    ensures BitAnd(c, 3) == c && BitAnd(c, 0) == 0 && BitOr(c, 0) == c && BitOr(0, c) == c
  {
    MaskTwo(c);
  }

  lemma {:induction false} AndZero(x: nat)
    ensures BitAnd(x, 0) == 0 && BitOr(x, 0) == x
  {
  }

  lemma {:induction false} AndAll(x: nat, width: nat)
    requires x < Pow2(width)
    ensures BitAnd(x, Pow2(width) - 1) == x
  {
    if width > 0 {
      AndAll(x / 2, width - 1);
      AndStep(x, Pow2(width) - 1);
    }
  }

  lemma KeepLow(packed: nat, width: nat)
    requires 2 <= width && packed < Pow2(width)
    ensures Keep(packed, 0, width) == 4 * (packed / 4)
  {
    MaskFits(0, width);
    NotPair(3, width);
    NotPair(packed, width);
    AndPair(packed, BitNot(3, width));
    AndAll(packed / 4, width - 2);
    AndDigit(packed % 4);
  }

  lemma SetTritLow(packed: nat, trit: Trit, width: nat)
    requires 2 <= width && packed < Pow2(width)
    ensures SetTrit(packed, 0, trit, width) == packed - packed % 4 + TritToBits(trit)
  {
    KeepLow(packed, width);
    var kept := Keep(packed, 0, width);
    OrPair(kept, TritToBits(trit));
    AndDigit(TritToBits(trit));
    AndZero(kept / 4);
  }

  lemma KeepUp(packed: nat, idx: nat, width: nat)
    requires idx > 0 && 2 * idx + 2 <= width && packed < Pow2(width)
    ensures packed / 4 < Pow2(width - 2)
    ensures Keep(packed, idx, width) == packed % 4 + 4 * Keep(packed / 4, idx - 1, width - 2)
  {
    MaskFits(idx, width);
    NotPair(packed, width);
    ShlPair(3, 2 * idx);
    NotPair(Shl(3, 2 * idx), width);
    AndPair(packed, BitNot(Shl(3, 2 * idx), width));
    AndDigit(packed % 4);
  }

  /** Or-ing a code in at trit idx leaves the lowest trit alone. */
  lemma OrUp(word: nat, bits: nat, idx: nat)
    requires idx > 0
    ensures BitOr(word, Shl(bits, 2 * idx)) == word % 4 + 4 * BitOr(word / 4, Shl(bits, 2 * (idx - 1)))
  {
    ShlPair(bits, 2 * idx);
    OrPair(word, Shl(bits, 2 * idx));
    AndDigit(word % 4);
  }

  lemma SetTritUp(packed: nat, idx: nat, trit: Trit, width: nat)
    requires idx > 0 && 2 * idx + 2 <= width && packed < Pow2(width)
    ensures packed / 4 < Pow2(width - 2)
    ensures SetTrit(packed, idx, trit, width)
         == packed % 4 + 4 * SetTrit(packed / 4, idx - 1, trit, width - 2)
  {
    KeepUp(packed, idx, width);
    OrUp(Keep(packed, idx, width), TritToBits(trit), idx);
  }

  /** The frame of `ternary_set_trit`: one trit is written, the others keep their codes. */
  lemma {:induction false} GetSet(packed: nat, i: nat, trit: Trit, j: nat, width: nat)
    requires 2 * i + 2 <= width && packed < Pow2(width)
    ensures GetBits(SetTrit(packed, i, trit, width), j)
         == if i == j then TritToBits(trit) else GetBits(packed, j)
    decreases i
  {
    var s := SetTrit(packed, i, trit, width);
    if i == 0 {
      SetTritLow(packed, trit, width);
      assert s / 4 == packed / 4 && s % 4 == TritToBits(trit);
    } else {
      SetTritUp(packed, i, trit, width);
      assert s / 4 == SetTrit(packed / 4, i - 1, trit, width - 2) && s % 4 == packed % 4;
    }
    if j == 0 {
      GetBitsLow(s);
      GetBitsLow(packed);
    } else {
      GetBitsUp(s, j);
      GetBitsUp(packed, j);
      if i > 0 {
        GetSet(packed / 4, i - 1, trit, j - 1, width - 2);
      }
    }
  }

  lemma {:induction false} SetTritFits(packed: nat, idx: nat, trit: Trit, width: nat)
    requires 2 * idx + 2 <= width && packed < Pow2(width)
    ensures SetTrit(packed, idx, trit, width) < Pow2(width)
    decreases idx
  {
    assert Pow2(width) == 2 * Pow2(width - 1) == 4 * Pow2(width - 2);
    if idx == 0 {
      SetTritLow(packed, trit, width);
    } else {
      SetTritUp(packed, idx, trit, width);
      SetTritFits(packed / 4, idx - 1, trit, width - 2);
    }
  }

  // Packing

  lemma {:induction false} PackBound(ts: seq<Trit>)
    ensures Pack(ts) < Pow2(2 * |ts|)
  {
    if ts != [] {
      PackBound(ts[1..]);
      assert Pow2(2 * |ts|) == 2 * Pow2(2 * |ts| - 1) == 4 * Pow2(2 * |ts| - 2);
    }
  }

  lemma PackFits(ts: seq<Trit>, width: nat)
    requires 2 * |ts| <= width
    ensures Pack(ts) < Pow2(width)
  {
    PackBound(ts);
    Pow2Mono(2 * |ts|, width);
  }

  /** Writing trit |ts| of the word for ts appends to the numeral. */
  lemma {:induction false} SetAppend(ts: seq<Trit>, trit: Trit, width: nat)
    requires 2 * |ts| + 2 <= width
    ensures Pack(ts) < Pow2(width)
    ensures SetTrit(Pack(ts), |ts|, trit, width) == Pack(ts + [trit])
  {
    PackFits(ts, width);
    if ts == [] {
      SetTritLow(0, trit, width);
      assert (ts + [trit])[1..] == [];
    } else {
      SetAppend(ts[1..], trit, width - 2);
      SetTritUp(Pack(ts), |ts|, trit, width);
      assert (ts + [trit])[1..] == ts[1..] + [trit];
    }
  }

  /** So does or-ing in the shifted code, as encode does. */
  lemma {:induction false} OrAppend(ts: seq<Trit>, trit: Trit)
    ensures BitOr(Pack(ts), Shl(TritToBits(trit), 2 * |ts|)) == Pack(ts + [trit])
  {
    if ts == [] {
      assert (ts + [trit])[1..] == [];
    } else {
      OrAppend(ts[1..], trit);
      OrUp(Pack(ts), TritToBits(trit), |ts|);
      assert (ts + [trit])[1..] == ts[1..] + [trit];
    }
  }

  lemma {:induction false} GetPack(ts: seq<Trit>, i: nat)
    requires i < |ts|
    ensures GetBits(Pack(ts), i) == TritToBits(ts[i])
  {
    if i == 0 {
      GetBitsLow(Pack(ts));
    } else {
      GetBitsUp(Pack(ts), i);
      GetPack(ts[1..], i - 1);
    }
  }

  /** Reading back a packed numeral. */
  lemma TritsOfPack(ts: seq<Trit>)
    ensures TritsOf(Pack(ts), |ts|) == ts && Canonical(Pack(ts), |ts|)
  {
    PackBound(ts);
    forall i: nat | i < |ts|
      ensures GetBits(Pack(ts), i) == TritToBits(ts[i]) && TritsOf(Pack(ts), |ts|)[i] == ts[i]
    {
      GetPack(ts, i);
    }
  }

  lemma PackInjective(a: seq<Trit>, b: seq<Trit>)
    requires |a| == |b|
    ensures Pack(a) == Pack(b) <==> a == b
  {
    TritsOfPack(a);
    TritsOfPack(b);
  }

  lemma TritsOfStep(packed: nat, n: nat)
    requires n > 0
    ensures TritsOf(packed, n)[0] == BitsToTrit(packed % 4)
    ensures TritsOf(packed, n)[1..] == TritsOf(packed / 4, n - 1)
  {
    GetBitsLow(packed);
    forall j: nat | 1 <= j < n ensures TritsOf(packed, n)[j] == TritsOf(packed / 4, n - 1)[j - 1] {
      GetBitsUp(packed, j);
    }
  }

  /** The canonical form of a word is the word itself exactly when the word is canonical. */
  lemma {:induction false} CanonicalIff(packed: nat, n: nat)
    ensures Canon(packed, n) == packed <==> Canonical(packed, n)
  {
    TritsOfPack(TritsOf(packed, n));
    if Canonical(packed, n) {
      CanonicalPack(packed, n);
    }
  }

  lemma {:induction false} CanonicalPack(packed: nat, n: nat)
    requires Canonical(packed, n)
    ensures Pack(TritsOf(packed, n)) == packed
  {
    if n > 0 {
      assert Pow2(2 * n) == 2 * Pow2(2 * n - 1) == 4 * Pow2(2 * n - 2);
      GetBitsLow(packed);
      assert GetBits(packed, 0) != 3;
      forall i: nat | i < n - 1 ensures GetBits(packed / 4, i) != 3 {
        GetBitsUp(packed, i + 1);
      }
      CanonicalPack(packed / 4, n - 1);
      TritsOfStep(packed, n);
    }
  }
}
