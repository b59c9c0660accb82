/** C's bitwise operators on unsigned integers of a given width, defined bit by bit. */
module BitOps {
  function Pow2(k: nat): (r: nat)
    ensures r >= 1
  {
    if k == 0 then 1 else 2 * Pow2(k - 1)
  }

  /** `x >> k`. */
  function Shr(x: nat, k: nat): nat {
    if k == 0 then x else Shr(x / 2, k - 1)
  }

  /** `x << k`, for a result that fits its type. */
  function Shl(x: nat, k: nat): nat {
    if k == 0 then x else 2 * Shl(x, k - 1)
  }

  /** `x & y`. */
  function BitAnd(x: nat, y: nat): nat {
    if x == 0 || y == 0 then 0
    else (if x % 2 == 1 && y % 2 == 1 then 1 else 0) + 2 * BitAnd(x / 2, y / 2)
  }

  /** `x | y`. */
  function BitOr(x: nat, y: nat): nat {
    if x == 0 then y else if y == 0 then x
    else (if x % 2 == 1 || y % 2 == 1 then 1 else 0) + 2 * BitOr(x / 2, y / 2)
  }

  /** `~x` in an unsigned type of `width` bits. */
  function BitNot(x: nat, width: nat): nat
    requires x < Pow2(width)
  {
    Pow2(width) - 1 - x
  }

  /** Bit k. */
  function Bit(x: nat, k: nat): nat {
    Shr(x, k) % 2
  }

  /** Shifts are multiplication and floor division by 2^k. */
  lemma {:induction false} ShiftsScale(x: nat, k: nat)
    ensures Shl(x, k) == x * Pow2(k)
    ensures Shr(x, k) * Pow2(k) <= x < (Shr(x, k) + 1) * Pow2(k)
  {
    if k > 0 {
      ShiftsScale(x, k - 1);
      ShiftsScale(x / 2, k - 1);
      DoubleProduct(x, Pow2(k - 1));
      DoubleProduct(Shr(x, k), Pow2(k - 1));
      DoubleProduct(Shr(x, k) + 1, Pow2(k - 1));
    }
  }

  lemma DoubleProduct(x: nat, p: nat)
    ensures x * (2 * p) == 2 * (x * p)
  {
  }

  lemma AndHalf(x: nat, y: nat)
    ensures BitAnd(x, y) % 2 == if x % 2 == 1 && y % 2 == 1 then 1 else 0
    ensures BitAnd(x, y) / 2 == BitAnd(x / 2, y / 2)
  {
    AndStep(x, y);
  }

  lemma OrHalf(x: nat, y: nat)
    ensures BitOr(x, y) % 2 == if x % 2 == 1 || y % 2 == 1 then 1 else 0
    ensures BitOr(x, y) / 2 == BitOr(x / 2, y / 2)
  {
    OrStep(x, y);
  }

  /** And, or and complement work on each bit by itself. */
  lemma {:induction false} BitwiseBits(x: nat, y: nat, k: nat)
    ensures Bit(BitAnd(x, y), k) == if Bit(x, k) == 1 && Bit(y, k) == 1 then 1 else 0
    ensures Bit(BitOr(x, y), k) == if Bit(x, k) == 1 || Bit(y, k) == 1 then 1 else 0
    decreases k
  {
    hide BitAnd, BitOr;
    AndHalf(x, y);
    OrHalf(x, y);
    if k > 0 {
      BitwiseBits(x / 2, y / 2, k - 1);
    }
  }

  lemma {:induction false} NotBits(x: nat, width: nat, k: nat)
    requires x < Pow2(width)
    ensures Bit(BitNot(x, width), k) == if k < width then 1 - Bit(x, k) else 0
    decreases width
  {
    if width == 0 {
      ZeroBits(k);
    } else if k > 0 {
      NotBits(x / 2, width - 1, k - 1);
      assert BitNot(x, width) / 2 == BitNot(x / 2, width - 1);
    }
  }

  lemma {:induction false} ZeroBits(k: nat)
    ensures Bit(0, k) == 0
  {
    if k > 0 {
      ZeroBits(k - 1);
    }
  }

  lemma MaskTwo(x: nat)
    ensures BitAnd(x, 3) == x % 4
  {
    assert BitAnd(x / 2, 1) == if x / 2 % 2 == 1 then 1 else 0;
  }

  lemma AndStep(x: nat, y: nat)
    ensures BitAnd(x, y) == (if x % 2 == 1 && y % 2 == 1 then 1 else 0) + 2 * BitAnd(x / 2, y / 2)
  {
  }

  lemma OrStep(x: nat, y: nat)
    ensures BitOr(x, y) == (if x % 2 == 1 || y % 2 == 1 then 1 else 0) + 2 * BitOr(x / 2, y / 2)
  {
  }

  /** The operators work on each pair of bits independently of the others. */
  lemma AndPair(x: nat, y: nat)
    ensures BitAnd(x, y) == BitAnd(x % 4, y % 4) + 4 * BitAnd(x / 4, y / 4)
  {
    AndStep(x, y);
    AndStep(x / 2, y / 2);
    AndStep(x % 4, y % 4);
    AndStep(x % 4 / 2, y % 4 / 2);
    assert x / 2 / 2 == x / 4 && y / 2 / 2 == y / 4;
  }

  lemma OrPair(x: nat, y: nat)
    ensures BitOr(x, y) == BitOr(x % 4, y % 4) + 4 * BitOr(x / 4, y / 4)
  {
    OrStep(x, y);
    OrStep(x / 2, y / 2);
    OrStep(x % 4, y % 4);
    OrStep(x % 4 / 2, y % 4 / 2);
    assert x / 2 / 2 == x / 4 && y / 2 / 2 == y / 4;
  }

  lemma ShrPair(x: nat, k: nat)
    requires k >= 2
    ensures Shr(x, k) == Shr(x / 4, k - 2)
  {
    assert Shr(x, k) == Shr(x / 2, k - 1) == Shr(x / 2 / 2, k - 2);
    assert x / 2 / 2 == x / 4;
  }

  lemma ShlPair(x: nat, k: nat)
    requires k >= 2
    ensures Shl(x, k) == 4 * Shl(x, k - 2)
  {
    assert Shl(x, k) == 2 * Shl(x, k - 1);
  }

  lemma {:induction false} ShlBound(x: nat, j: nat, k: nat)
    requires x < Pow2(j)
    ensures Shl(x, k) < Pow2(j + k)
  {
    if k > 0 {
      ShlBound(x, j, k - 1);
    }
  }

  lemma {:induction false} Pow2Mono(j: nat, k: nat)
    requires j <= k
    ensures Pow2(j) <= Pow2(k)
  {
    if j < k {
      Pow2Mono(j, k - 1);
    }
  }

  lemma {:induction false} Pow2Add(j: nat, k: nat)
    ensures Pow2(j + k) == Pow2(j) * Pow2(k)
  {
    if j > 0 {
      Pow2Add(j - 1, k);
      assert 2 * (Pow2(j - 1) * Pow2(k)) == (2 * Pow2(j - 1)) * Pow2(k);
    }
  }
}
