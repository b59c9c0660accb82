/** Laws of the packed helpers, for words of any trit count. */
module WordLaws {
  import opened CArith
  import opened BitOps
  import opened Trits
  import opened TritLogic
  import opened TritOrder
  import opened Words
  import S = TritShift
  import opened Ops = PackedOps

  // Conversion

  lemma EncodeTrits(v: int, n: nat)
    ensures TritsOf(Encode(v, n), n) == Expand(v, n) && Canonical(Encode(v, n), n)
    ensures Decode(Encode(v, n), n) == Val(Expand(v, n))
  {
    TritsOfPack(Expand(v, n));
  }

  lemma PackTrits(ts: seq<Trit>)
    ensures TritsOf(Pack(ts), |ts|) == ts && Decode(Pack(ts), |ts|) == Val(ts)
  {
    TritsOfPack(ts);
  }

  lemma DecodeInRange(w: nat, n: nat)
    ensures InRange(Decode(w, n), n)
  {
    ValBound(TritsOf(w, n));
  }

  /** Decoding what encode wrote gives the only balanced residue of v modulo 3^n, and so
      gives v back exactly when n trits can hold v. */
  lemma {:induction false} RoundTripValue(v: int, n: nat)
    ensures InRange(Decode(Encode(v, n), n), n) && Cong(v, Decode(Encode(v, n), n), Pow3(n))
    ensures forall x: int :: InRange(x, n) && Cong(v, x, Pow3(n)) ==> x == Decode(Encode(v, n), n)
    ensures Decode(Encode(v, n), n) == v <==> InRange(v, n)
  {
    EncodeTrits(v, n);
    BalancedResidue(v, n);
    ExpandInRange(v, n);
  }

  /** Two integers encode to the same word exactly when they agree modulo 3^n. */
  lemma EncodeEqual(v: int, w: int, n: nat)
    ensures Encode(v, n) == Encode(w, n) <==> Cong(v, w, Pow3(n))
  {
    PackInjective(Expand(v, n), Expand(w, n));
    ExpandEqual(v, w, n);
  }

  /** Encoding what decode read gives the canonical form, which is the word itself exactly
      when the word is canonical. */
  lemma RoundTripWord(w: nat, n: nat)
    ensures Encode(Decode(w, n), n) == Canon(w, n)
    ensures Encode(Decode(w, n), n) == w <==> Canonical(w, n)
    ensures Decode(Canon(w, n), n) == Decode(w, n)
  {
    ExpandVal(TritsOf(w, n));
    CanonicalIff(w, n);
    PackTrits(TritsOf(w, n));
  }

  /** Encode sees its argument only modulo 3^n, so an operand may be re-encoded first. */
  lemma EncodeAbsorbs(v: int, c: int, n: nat)
    ensures Encode(Decode(Encode(v, n), n) + c, n) == Encode(v + c, n)
  {
    var r, m := Decode(Encode(v, n), n), Pow3(n);
    RoundTripValue(v, n);
    CongIntro(c, c, m, 0);
    CongAdd(v, r, c, c, m);
    CongSym(v + c, r + c, m);
    EncodeEqual(r + c, v + c, n);
  }

  /** r is the balanced residue of v modulo 3^n, and is v itself precisely when n trits can
      hold v. */
  predicate IsResidue(r: int, v: int, n: nat) {
    InRange(r, n) && Cong(v, r, Pow3(n)) && (r == v <==> InRange(v, n))
  }

  lemma EncodeIsResidue(v: int, n: nat)
    ensures IsResidue(Decode(Encode(v, n), n), v, n)
  {
    RoundTripValue(v, n);
  }

  /** Each arithmetic helper returns the balanced residue of the exact result. Negation is
      always exact. */
  lemma ArithmeticMeaning(a: nat, b: nat, n: nat)
    ensures IsResidue(Decode(Add(a, b, n), n), Decode(a, n) + Decode(b, n), n)
    ensures IsResidue(Decode(Sub(a, b, n), n), Decode(a, n) - Decode(b, n), n)
    ensures IsResidue(Decode(Mul(a, b, n), n), Decode(a, n) * Decode(b, n), n)
    ensures Decode(Neg(a, n), n) == -Decode(a, n)
  {
    hide Decode, Encode, Pow3, Cong;
    var x, y := Decode(a, n), Decode(b, n);
    EncodeIsResidue(x + y, n);
    EncodeIsResidue(x - y, n);
    EncodeIsResidue(x * y, n);
    EncodeIsResidue(-x, n);
    DecodeInRange(a, n);
  }

  /** Sums and differences of 32-trit words stay in int64_t; a product may not. */
  lemma OverflowAt32(a: nat, b: nat)
    ensures Fits64(Decode(a, 32) + Decode(b, 32)) && Fits64(Decode(a, 32) - Decode(b, 32))
    ensures exists w: nat :: Canonical(w, 32) && !Fits64(Decode(w, 32) * Decode(w, 32))
  {
    DecodeInRange(a, 32);
    DecodeInRange(b, 32);
    Pow3Constants();
    var top := Encode(MaxAbs(32), 32);
    EncodeTrits(MaxAbs(32), 32);
    RoundTripValue(MaxAbs(32), 32);
    SquareOverflows(Decode(top, 32));
  }

  lemma SquareOverflows(x: int)
    requires x == 926510094425920
    ensures !Fits64(x * x)
  {
  }

  // Fused multiply-add

  /** Multiply-add is multiply then add, bit for bit, even when the product alone does not
      fit n trits. */
  lemma {:induction false} FusedIsUnfused(a: nat, b: nat, c: nat, n: nat)
    ensures MulAdd(a, b, c, n) == Add(Mul(a, b, n), c, n)
  {
    EncodeAbsorbs(Decode(a, n) * Decode(b, n), Decode(c, n), n);
  }

  // Negation and tritwise logic

  /** Inverting the trits and negating the value are the same word on every input. */
  lemma NotIsNeg(a: nat, n: nat)
    ensures Not(a, n) == Neg(a, n)
  {
    NegateVal(TritsOf(a, n));
    ExpandVal(Negate(TritsOf(a, n)));
  }

  /** What each operation code does at every trit. */
  lemma BitwiseTrits(a: nat, b: nat, n: nat, op: int)
    ensures Canonical(Bitwise(a, b, n, op), n)
    ensures forall i: nat :: i < n ==>
      var x, y := GetTrit(a, i), GetTrit(b, i);
      GetTrit(Bitwise(a, b, n, op), i) ==
        if op == 0 then (if x <= y then x else y)
        else if op == 1 then (if x >= y then x else y)
        else if x + y > 1 then x + y - 3 else if x + y < -1 then x + y + 3 else x + y
  {
    var ts := Tritwise(TritsOf(a, n), TritsOf(b, n), op);
    TritsOfPack(ts);
    hide Pack, Canonical, GetTrit;
    forall i: nat | i < n
      ensures GetTrit(Pack(ts), i) == TritOp(GetTrit(a, i), GetTrit(b, i), op)
    {
      assert TritsOf(Pack(ts), n)[i] == ts[i];
    }
    forall x: Trit, y: Trit
      ensures TritXor(x, y) == if x + y > 1 then x + y - 3 else if x + y < -1 then x + y + 3 else x + y
    {
      TritXorIsSum(x, y);
    }
  }

  lemma AndOrAdd(a: nat, b: nat, n: nat)
    ensures Add(Bitwise(a, b, n, MIN), Bitwise(a, b, n, MAX), n) == Add(a, b, n)
  {
    var x, y := TritsOf(a, n), TritsOf(b, n);
    PackTrits(Tritwise(x, y, MIN));
    PackTrits(Tritwise(x, y, MAX));
    MinPlusMax(x, y);
  }

  lemma AndIsLower(a: nat, b: nat, n: nat)
    ensures Decode(Bitwise(a, b, n, MIN), n) <= Decode(a, n) <= Decode(Bitwise(a, b, n, MAX), n)
    ensures Decode(Bitwise(a, b, n, MIN), n) <= Decode(b, n) <= Decode(Bitwise(a, b, n, MAX), n)
  {
    var x, y := TritsOf(a, n), TritsOf(b, n);
    PackTrits(Tritwise(x, y, MIN));
    PackTrits(Tritwise(x, y, MAX));
    MinBelow(x, y);
  }

  lemma MajIsMedian(a: nat, b: nat, c: nat, n: nat)
    ensures Maj(a, b, c, n) == Bitwise(Bitwise(a, b, n, MIN),
                                       Bitwise(Bitwise(a, c, n, MIN), Bitwise(b, c, n, MIN), n, MAX),
                                       n, MAX)
  {
    var x, y, z := TritsOf(a, n), TritsOf(b, n), TritsOf(c, n);
    PackTrits(Tritwise(x, y, MIN));
    PackTrits(Tritwise(x, z, MIN));
    PackTrits(Tritwise(y, z, MIN));
    PackTrits(Tritwise(Tritwise(x, z, MIN), Tritwise(y, z, MIN), MAX));
    MajorityMedian(x, y, z);
  }

  // Carry-free addition

  lemma XorGroup(a: nat, b: nat, c: nat, n: nat)
    ensures Bitwise(Bitwise(a, b, n, XOR), c, n, XOR) == Bitwise(a, Bitwise(b, c, n, XOR), n, XOR)
    ensures Bitwise(a, b, n, XOR) == Bitwise(b, a, n, XOR)
    ensures Bitwise(Bitwise(a, b, n, XOR), Not(b, n), n, XOR) == Canon(a, n)
  {
    var x, y, z := TritsOf(a, n), TritsOf(b, n), TritsOf(c, n);
    PackTrits(Tritwise(x, y, XOR));
    PackTrits(Tritwise(y, z, XOR));
    PackTrits(Negate(y));
    XorAssociative(x, y, z);
    XorCommutative(x, y);
    XorCancel(x, y);
  }

  /** Tritwise xor is the sum exactly when no pair of trits below the top one carries. */
  lemma XorIsAddWord(a: nat, b: nat, n: nat)
    ensures Bitwise(a, b, n, XOR) == Add(a, b, n) <==> CarryFree(TritsOf(a, n), TritsOf(b, n))
  {
    var x, y := TritsOf(a, n), TritsOf(b, n);
    XorIsAdd(x, y);
    PackInjective(Tritwise(x, y, XOR), Expand(Val(x) + Val(y), n));
  }

  // Shifts

  /** Left shift by any count is multiplication by 3^(count mod n), reduced to the balanced
      residue modulo 3^n. */
  lemma {:induction false} ShlScales(w: nat, n: nat, count: nat)
    requires n > 0
    ensures ShlWord(w, n, count) == Encode(Pow3(count % n) * Decode(w, n), n)
  {
    S.ShiftLeftScales(TritsOf(w, n), count % n);
  }

  /** Only the count modulo n matters to a right shift. */
  lemma ShrReduces(w: nat, n: nat, count: nat)
    requires n > 0
    ensures ShrWord(w, n, count) == ShrWord(w, n, count % n)
  {
    S.BelowMod(count % n, n);
  }

  /** Shifting left and back gives the canonical word exactly when the top s+1 trits agree. */
  lemma ShlShr(w: nat, n: nat, s: nat)
    requires s < n
    ensures ShrWord(ShlWord(w, n, s), n, s) == Canon(w, n) <==> S.TopEqual(TritsOf(w, n), s)
  {
    var ts := TritsOf(w, n);
    S.BelowMod(s, n);
    PackTrits(S.ShiftLeft(ts, s));
    S.ShiftLeftRight(ts, s);
    PackInjective(S.ShiftRight(S.ShiftLeft(ts, s), s), ts);
  }

  /** The value of the trits from position s up. */
  function Kept(w: nat, n: nat, s: nat): int
    requires s <= n
  {
    Val(TritsOf(w, n)[s..])
  }

  lemma ShrDecode(w: nat, n: nat, s: nat)
    requires s < n
    ensures Decode(ShrWord(w, n, s), n) == Val(S.ShiftRight(TritsOf(w, n), s))
  {
    S.BelowMod(s, n);
    PackTrits(S.ShiftRight(TritsOf(w, n), s));
  }

  /** Right shift: exact value, and the error the copied top trit makes. */
  lemma ShrValue(w: nat, n: nat, s: nat)
    requires s < n
    ensures Decode(ShrWord(w, n, s), n) == Kept(w, n, s) + GetTrit(w, n - 1) * S.TopWeight(n, s)
    ensures Decode(ShrWord(w, n, s), n) == Kept(w, n, s) <==> s == 0 || GetTrit(w, n - 1) == 0
  {
    hide ShrWord, Decode, Val, GetTrit, S.TopWeight, S.ShiftRight;
    ShrDecode(w, n, s);
    S.ShiftRightVal(TritsOf(w, n), s);
    S.TopWeightSign(n, s);
    TritTimes(S.TopWeight(n, s), GetTrit(w, n - 1));
  }

  /** Dropping s trits is the unique nearest integer to the value over 3^s. Right shift
      computes it exactly when nothing is shifted or the top trit is 0. */
  lemma ShrNearest(w: nat, n: nat, s: nat)
    requires s < n
    ensures (forall m: int :: m != Decode(ShrWord(w, n, s), n) ==>
               Abs(Decode(w, n) - Pow3(s) * Decode(ShrWord(w, n, s), n)) < Abs(Decode(w, n) - Pow3(s) * m))
       <==> s == 0 || GetTrit(w, n - 1) == 0
  {
    hide *;
    var v, p, k, r := Decode(w, n), Pow3(s), Kept(w, n, s), Decode(ShrWord(w, n, s), n);
    ShrValue(w, n, s);
    forall m: int | m != k ensures Abs(v - p * k) < Abs(v - p * m) {
      KeptIsNearest(w, n, s, m);
    }
    if r != k {
      assert !(Abs(v - p * r) < Abs(v - p * k));
    }
  }

  lemma KeptIsNearest(w: nat, n: nat, s: nat, m: int)
    requires s <= n && m != Kept(w, n, s)
    ensures Abs(Decode(w, n) - Pow3(s) * Kept(w, n, s)) < Abs(Decode(w, n) - Pow3(s) * m)
  {
    S.KeptNearest(TritsOf(w, n), s, m);
  }

  /** The numeral of 3^m: a 1 above m zeros. */
  function Unit(m: nat): (ts: seq<Trit>)
    ensures |ts| == m + 1
  {
    Repeat(0, m) + [1]
  }

  lemma UnitWord(m: nat)
    ensures Val(Unit(m)) == Pow3(m)
    ensures TritsOf(Encode(Pow3(m), m + 1), m + 1) == Unit(m)
  {
    ZeroVal(m);
    ValSnoc(Repeat(0, m), 1);
    ExpandVal(Unit(m));
    EncodeTrits(Pow3(m), m + 1);
  }

  /** The top trit alone, at 3^(n-1): shifting right by one gives 4*3^(n-2), where the nearest
      integer is 3^(n-2). */
  lemma {:induction false} ShrNotNearest(n: nat)
    requires n >= 2
    ensures var w := Encode(Pow3(n - 1), n);
      Decode(w, n) == 3 * Pow3(n - 2) && Decode(ShrWord(w, n, 1), n) == 4 * Pow3(n - 2)
  {
    hide Pow3, Val, ShrWord, Expand, S.TopWeight, Pack;
    var w := Encode(Pow3(n - 1), n);
    UnitWord(n - 1);
    UnitWord(n - 2);
    Pow3Step(n - 2);
    ShrValue(w, n, 1);
    assert TritsOf(w, n)[n - 1] == 1;
    assert Unit(n - 1)[1..] == Unit(n - 2);
    S.TopWeightParts(n, 1);
    assert MaxAbs(1) == 1 by {
      assert Pow3(1) == 3 by { Pow3One(); }
    }
  }

  lemma Pow3One()
    ensures Pow3(0) == 1 && Pow3(1) == 3
  {
  }

  /** Right shift trit by trit, for any count. */
  lemma ShrTrits(w: nat, n: nat, count: nat)
    requires n > 0
    ensures Canonical(ShrWord(w, n, count), n)
    ensures forall i: nat :: i < n ==>
      GetTrit(ShrWord(w, n, count), i) == GetTrit(w, if i + count % n < n then i + count % n else n - 1)
  {
    var s := count % n;
    var ts := S.ShiftRight(TritsOf(w, n), s);
    TritsOfPack(ts);
    hide Pack, Canonical, GetTrit;
    forall i: nat | i < n ensures GetTrit(Pack(ts), i) == GetTrit(w, if i + s < n then i + s else n - 1) {
      assert TritsOf(Pack(ts), n)[i] == ts[i];
    }
  }

  /** The word of 1 shifted right by one is 0: its sign is lost. */
  lemma {:induction false} ShrLosesSign(n: nat)
    requires n >= 2
    ensures Decode(Encode(1, n), n) == 1 && Decode(ShrWord(Encode(1, n), n, 1), n) == 0
  {
    OneTrits(n);
    var w := Encode(1, n);
    ShrValue(w, n, 1);
    assert TritsOf(w, n)[n - 1] == 0;
    assert TritsOf(w, n)[1..] == Repeat(0, n - 1);
    ZeroVal(n - 1);
  }

  lemma OneTrits(n: nat)
    requires n >= 1
    ensures TritsOf(Encode(1, n), n) == [1] + Repeat(0, n - 1) && Decode(Encode(1, n), n) == 1
  {
    var ts := [1] + Repeat(0, n - 1);
    assert ts[1..] == Repeat(0, n - 1);
    ZeroVal(n - 1);
    ExpandVal(ts);
    EncodeTrits(1, n);
  }

  lemma {:induction false} LeadingSuffix(ts: seq<Trit>, s: nat)
    requires s <= |ts| && LeadingTrit(ts[s..]) != 0
    ensures LeadingTrit(ts) == LeadingTrit(ts[s..])
  {
    var m := |ts| - 1;
    assert ts[s..][|ts| - 1 - s] == ts[m];
    if ts[m] == 0 {
      assert ts[s..][..|ts| - 1 - s] == ts[..m][s..];
      LeadingSuffix(ts[..m], s);
    }
  }

  lemma {:induction false} LeadingFill(ts: seq<Trit>, s: nat)
    requires ts != []
    ensures LeadingTrit(ts + Repeat(ts[|ts| - 1], s)) == LeadingTrit(ts)
  {
    var top := ts[|ts| - 1];
    var all := ts + Repeat(top, s);
    if s == 0 {
      assert all == ts;
    } else {
      assert all[|all| - 1] == top;
      assert all[..|all| - 1] == ts + Repeat(top, s - 1);
      LeadingFill(ts, s - 1);
    }
  }

  /** Right shift has the sign of the kept trits; that is the sign of the word exactly when
      some kept trit is not 0 or the word is 0. */
  lemma {:induction false} ShrSign(w: nat, n: nat, s: nat)
    requires s < n
    ensures Sgn(Decode(ShrWord(w, n, s), n)) == Sgn(Kept(w, n, s))
    ensures Sgn(Decode(ShrWord(w, n, s), n)) == Sgn(Decode(w, n)) <==> Kept(w, n, s) != 0 || Decode(w, n) == 0
  {
    hide Val, ShrWord, LeadingTrit;
    var ts := TritsOf(w, n);
    ShrDecode(w, n, s);
    S.ShiftRightParts(ts, s);
    LeadingTritIsSign(S.ShiftRight(ts, s));
    LeadingTritIsSign(ts[s..]);
    LeadingTritIsSign(ts);
    LeadingFill(ts[s..], s);
    if LeadingTrit(ts[s..]) != 0 {
      LeadingSuffix(ts, s);
    }
  }

  // Rotation

  /** Where each trit of a rotated word comes from. */
  lemma RolTritAt(w: nat, n: nat, count: nat, i: nat)
    requires i < n
    ensures GetTrit(RolWord(w, n, count), i) == GetTrit(w, (i - count) % n)
  {
    hide RolWord, GetTrit;
    RolTrits(w, n, count);
    S.RotateSource(i, count, n);
    assert TritsOf(RolWord(w, n, count), n)[i] == TritsOf(w, n)[(i + n - count % n) % n];
  }

  lemma RorTrits(w: nat, n: nat, count: nat)
    requires n > 0
    ensures TritsOf(RorWord(w, n, count), n) == S.RotateRight(TritsOf(w, n), count % n)
  {
    PackTrits(S.RotateRight(TritsOf(w, n), count % n));
  }

  lemma RorTritAt(w: nat, n: nat, count: nat, i: nat)
    requires i < n
    ensures GetTrit(RorWord(w, n, count), i) == GetTrit(w, (i + count) % n)
  {
    hide RorWord, GetTrit;
    RorTrits(w, n, count);
    S.RotateTarget(i, count, n);
    assert TritsOf(RorWord(w, n, count), n)[i] == TritsOf(w, n)[(i + count % n) % n];
  }

  /** The words shifts and rotations return are canonical. */
  lemma ShiftsCanonical(w: nat, n: nat, count: nat)
    requires n > 0
    ensures Canonical(ShlWord(w, n, count), n) && Canonical(ShrWord(w, n, count), n)
    ensures Canonical(RolWord(w, n, count), n) && Canonical(RorWord(w, n, count), n)
  {
    hide Canonical, Pack, TritsOf, S.ShiftLeft, S.ShiftRight, S.RotateLeft, S.RotateRight;
    var ts, s := TritsOf(w, n), count % n;
    TritsOfPack(S.ShiftLeft(ts, s));
    TritsOfPack(S.ShiftRight(ts, s));
    TritsOfPack(S.RotateLeft(ts, s));
    TritsOfPack(S.RotateRight(ts, s));
  }

  /** Rotating left by any count multiplies by 3^count modulo 3^n - 1. */
  lemma {:induction false} RolScales(w: nat, n: nat, count: nat)
    requires n > 0
    ensures Pow3(n) > 1
    ensures Cong(Decode(RolWord(w, n, count), n), Pow3(count) * Decode(w, n), Pow3(n) - 1)
  {
    PackTrits(S.RotateLeft(TritsOf(w, n), count % n));
    S.RotateAnyScales(TritsOf(w, n), count);
  }

  lemma RolTrits(w: nat, n: nat, count: nat)
    requires n > 0
    ensures RolWord(w, n, count) == Pack(S.RotateLeft(TritsOf(w, n), count % n))
    ensures TritsOf(RolWord(w, n, count), n) == S.RotateLeft(TritsOf(w, n), count % n)
  {
    PackTrits(S.RotateLeft(TritsOf(w, n), count % n));
  }

  lemma {:induction false} RolCompose(w: nat, n: nat, s: nat, t: nat)
    requires n > 0
    ensures RolWord(RolWord(w, n, s), n, t) == RolWord(w, n, s + t)
  {
    hide *;
    var a := RolWord(w, n, s);
    RolTrits(w, n, s);
    RolTrits(a, n, t);
    RolTrits(w, n, s + t);
    S.RotateCompose(TritsOf(w, n), s % n, t % n);
    S.ModSum(s, t, n);
  }

  lemma RolRorInverse(w: nat, n: nat, s: nat)
    requires n > 0
    ensures RorWord(RolWord(w, n, s), n, s) == Canon(w, n) && RolWord(RorWord(w, n, s), n, s) == Canon(w, n)
  {
    var ts := TritsOf(w, n);
    PackTrits(S.RotateLeft(ts, s % n));
    PackTrits(S.RotateRight(ts, s % n));
    S.RotateInverse(ts, s % n);
  }

  // Counts of type `int`

  /** What the unsigned conversion of the count comes to, for any int count: the shifts and
      rotations go by the count modulo n. */
  lemma {:induction false} IntCounts(w: nat, n: nat, k: int)
    requires n > 0 && 0x1_0000_0000 % n == 0
    ensures ShlWord(w, n, Count(k)) == Encode(Pow3(k % n) * Decode(w, n), n)
    ensures Decode(ShrWord(w, n, Count(k)), n) == Kept(w, n, k % n) + GetTrit(w, n - 1) * S.TopWeight(n, k % n)
    ensures forall i: nat :: i < n ==> GetTrit(RolWord(w, n, Count(k)), i) == GetTrit(w, (i - k) % n)
    ensures forall i: nat :: i < n ==> GetTrit(RorWord(w, n, Count(k)), i) == GetTrit(w, (i + k) % n)
  {
    hide ShlWord, ShrWord, RolWord, RorWord, Encode, Decode, GetTrit, Kept, S.TopWeight;
    S.CountRemainder(0, k, n);
    ShlScales(w, n, Count(k));
    ShrReduces(w, n, Count(k));
    ShrValue(w, n, k % n);
    forall i: nat | i < n
      ensures GetTrit(RolWord(w, n, Count(k)), i) == GetTrit(w, (i - k) % n)
      ensures GetTrit(RorWord(w, n, Count(k)), i) == GetTrit(w, (i + k) % n)
    {
      S.CountRemainder(i, k, n);
      RolTritAt(w, n, Count(k), i);
      RorTritAt(w, n, Count(k), i);
    }
  }

  /** A negative `int` count rotates the other way by its magnitude, because 32 and 64
      divide 2^32. */
  lemma {:induction false} RolNegative(w: nat, n: nat, k: int)
    requires n > 0 && 0x1_0000_0000 % n == 0
    ensures RolWord(w, n, Count(-k)) == RorWord(w, n, Count(k))
  {
    S.RotateRightIsLeft(TritsOf(w, n), Count(k) % n);
    S.ModSum(Count(k), Count(-k), n);
    S.CountsCancel(k, n);
  }

  // Rounding

  /** For every drop below n, round is the value over 3^drop truncated toward zero. The
      drop that leaves nothing returns word 0, whose trits are all -1; so the truncated
      quotient comes back exactly when drop < n. */
  lemma {:induction false} RoundIsTruncation(w: nat, n: nat, drop: nat)
    requires n > 0
    ensures Decode(Round(w, n, drop), n) == TruncDiv(Decode(w, n), Pow3(drop)) <==> drop < n
  {
    var v, p := Decode(w, n), Pow3(drop);
    DecodeInRange(w, n);
    if drop < n {
      TruncDivMod(v, p);
      RoundTripValue(TruncDiv(v, p), n);
    } else {
      WordZero(n);
      Pow3Mono(n, drop);
      TruncUnique(v, p, 0, v);
    }
  }

  /** The packed word 0 is the most negative value, not zero. */
  lemma {:induction false} WordZero(n: nat)
    ensures Decode(0, n) == -MaxAbs(n)
    ensures n > 0 ==> Decode(0, n) < 0
  {
    if n > 0 {
      WordZero(n - 1);
      TritsOfStep(0, n);
    }
  }

  /** Truncating round against dropping the trits: at most 1 apart, and equal exactly when
      the dropped part is zero or has the sign of the whole. */
  lemma RoundAgainstDrop(w: nat, n: nat, drop: nat)
    requires drop < n
    ensures var r, lo := Decode(Round(w, n, drop), n), Val(TritsOf(w, n)[..drop]);
      && Abs(r - Kept(w, n, drop)) <= 1
      && (r == Kept(w, n, drop) <==> lo == 0 || Sgn(lo) == Sgn(Decode(w, n)))
  {
    RoundIsTruncation(w, n, drop);
    S.RoundAgainstDrop(TritsOf(w, n), drop);
  }

  /** The word of 2 is the trits 1, -1: rounding one trit away gives 0, dropping it gives 1. */
  lemma {:induction false} RoundDiffersFromDrop(n: nat)
    requires n >= 2
    ensures var w := Encode(2, n);
      Decode(w, n) == 2 && Decode(Round(w, n, 1), n) == 0 && Kept(w, n, 1) == 1
  {
    hide Val, Pow3, Expand, Pack, Round;
    Pow3One();
    Pow3Mono(2, n);
    Pow3Step(1);
    RoundTripValue(2, n);
    RoundIsTruncation(Encode(2, n), n, 1);
    KeptOfTwo(n);
  }

  lemma KeptOfTwo(n: nat)
    requires n >= 2
    ensures Kept(Encode(2, n), n, 1) == 1
  {
    EncodeTrits(2, n);
    assert Expand(2, n)[1..] == Expand(1, n - 1);
    OneTrits(n - 1);
    EncodeTrits(1, n - 1);
  }

  /** Two rounds are one by the sum of the drops exactly when that sum leaves a trit, or the
      second drops nothing, or the second drops everything. */
  lemma {:induction false} RoundTwice(w: nat, n: nat, d: nat, e: nat)
    requires n > 0
    ensures Round(Round(w, n, d), n, e) == Round(w, n, d + e) <==> d + e < n || e == 0 || e >= n
  {
    if d + e < n {
      RoundCompose(w, n, d, e);
    } else if e == 0 {
      RoundNone(w, n, d);
    } else if e < n {
      RoundTooFar(Round(w, n, d), n, e);
    }
  }

  lemma RoundCompose(w: nat, n: nat, d: nat, e: nat)
    requires d + e < n
    ensures Round(Round(w, n, d), n, e) == Round(w, n, d + e)
  {
    RoundIsTruncation(w, n, d);
    S.TruncTwice(Decode(w, n), Pow3(d), Pow3(e));
    Pow3Add(d, e);
  }

  lemma RoundNone(w: nat, n: nat, d: nat)
    requires n > 0
    ensures Round(Round(w, n, d), n, 0) == Round(w, n, d)
  {
    var r := Round(w, n, d);
    TruncUnique(Decode(r, n), 1, Decode(r, n), 0);
    assert Canonical(r, n) by {
      if d < n {
        EncodeTrits(TruncDiv(Decode(w, n), Pow3(d)), n);
      } else {
        ZeroCanonical(n);
      }
    }
    RoundTripWord(r, n);
  }

  lemma {:induction false} ZeroCanonical(n: nat)
    ensures Canonical(0, n)
  {
    forall i: nat | i < n ensures GetBits(0, i) != 3 {
      ZeroBits(2 * i);
      ZeroShift(2 * i);
    }
  }

  lemma {:induction false} ZeroShift(k: nat)
    ensures Shr(0, k) == 0
  {
    if k > 0 {
      ZeroShift(k - 1);
    }
  }

  /** A round that drops some trits but not all cannot give word 0. */
  lemma RoundTooFar(w: nat, n: nat, e: nat)
    requires 0 < e < n
    ensures Round(w, n, e) != 0
  {
    var v, p := Decode(w, n), Pow3(e);
    DecodeInRange(w, n);
    RoundIsTruncation(w, n, e);
    WordZero(n);
    Pow3Big(e);
    Pow3Big(n);
    TruncDivMod(v, p);
    TruncProduct(v, p);
    ThirdIsSmaller(TruncDiv(v, p), p, v);
  }

  lemma ThirdIsSmaller(q: int, p: int, v: int)
    requires p >= 3 && Abs(q * p) <= Abs(v)
    ensures 3 * Abs(q) <= Abs(v)
  {
    S.MulMono(3, p, Abs(q));
    MulNegate(q, p);
    MulComm(q, p);
    MulNegate(p, q);
  }

  // Order

  /** On canonical words, comparing the decoded values, comparing the trits from the top
      and comparing the words as unsigned integers are the same comparison. */
  lemma CmpIsWordOrder(a: nat, b: nat, n: nat)
    requires Canonical(a, n) && Canonical(b, n)
    ensures Cmp(a, b, n) == Sgn(a - b) == LexCompare(TritsOf(a, n), TritsOf(b, n))
  {
    hide Canonical, Pow2, Val, Pack, LexCompare;
    CanonicalIff(a, n);
    CanonicalIff(b, n);
    PackOrder(TritsOf(a, n), TritsOf(b, n));
    LexCompareIsOrder(TritsOf(a, n), TritsOf(b, n));
  }

  // Division

  lemma QuotientsInRange(a: nat, b: nat, n: nat)
    requires Decode(b, n) != 0
    ensures Decode(Div(a, b, n), n) == TruncDiv(Decode(a, n), Decode(b, n))
    ensures Decode(Mod(a, b, n), n) == TruncMod(Decode(a, n), Decode(b, n))
  {
    var va, vb := Decode(a, n), Decode(b, n);
    DecodeInRange(a, n);
    DecodeInRange(b, n);
    TruncDivMod(va, vb);
    RoundTripValue(TruncDiv(va, vb), n);
    RoundTripValue(TruncMod(va, vb), n);
  }

  /** Quotient times divisor plus remainder is the dividend, on words. The product it
      forms never leaves int64_t. */
  lemma {:induction false} DivisionIdentity(a: nat, b: nat, n: nat)
    requires Decode(b, n) != 0
    ensures Add(Mul(Div(a, b, n), b, n), Mod(a, b, n), n) == Canon(a, n)
    ensures n <= 39 ==> Fits64(Decode(Div(a, b, n), n) * Decode(b, n))
    ensures Abs(Decode(Mod(a, b, n), n)) < Abs(Decode(b, n))
    ensures Decode(Mod(a, b, n), n) == 0 || Sgn(Decode(Mod(a, b, n), n)) == Sgn(Decode(a, n))
  {
    hide *;
    var va, vb := Decode(a, n), Decode(b, n);
    var q, r := Div(a, b, n), Mod(a, b, n);
    QuotientsInRange(a, b, n);
    TruncDivMod(va, vb);
    TruncProduct(va, vb);
    DivisionFits(a, Decode(q, n) * vb, n);
    FusedIsUnfused(q, b, r, n);
    MulAddDef(q, b, r, n);
    RoundTripWord(a, n);
  }

  lemma MulAddDef(a: nat, b: nat, c: nat, n: nat)
    ensures MulAdd(a, b, c, n) == Encode(Decode(a, n) * Decode(b, n) + Decode(c, n), n)
  {
  }

  lemma DivisionFits(a: nat, p: int, n: nat)
    requires Abs(p) <= Abs(Decode(a, n))
    ensures n <= 39 ==> Fits64(p)
  {
    DecodeInRange(a, n);
    if n <= 39 {
      Pow3Constants();
      Pow3Mono(n, 39);
    }
  }

  /** Dividing by zero gives zero, quotient and remainder alike. */
  lemma DivideByZero(a: nat, b: nat, n: nat)
    requires Decode(b, n) == 0
    ensures Decode(Div(a, b, n), n) == 0 && Decode(Mod(a, b, n), n) == 0
  {
    RoundTripValue(0, n);
  }

  // Normalisation

  /** Rewriting the spare code to 0 keeps the decoded value exactly when there is none. */
  lemma NormalizeKeepsValue(packed: nat, out: nat, n: nat)
    requires forall j: nat ::
      GetBits(out, j) == if j < n && GetBits(packed, j) == 3 then 1 else GetBits(packed, j)
    ensures Decode(out, n) == Decode(packed, n) <==> forall j: nat :: j < n ==> GetBits(packed, j) != 3
  {
    var x, y := TritsOf(out, n), TritsOf(packed, n);
    ValInjective(x, y);
    if x == y {
      forall j: nat | j < n ensures GetBits(packed, j) != 3 {
        assert x[j] == y[j];
      }
    }
  }

  /** The zero word with the spare code in trit 0 has the value 1, and 0 once normalised. */
  lemma {:induction false} NormalizeLosesValue(n: nat)
    requires n >= 1
    ensures var out := Encode(0, n); var packed := out + 2;
      && (forall j: nat :: GetBits(out, j) == if j < n && GetBits(packed, j) == 3 then 1 else GetBits(packed, j))
      && Decode(out, n) == 0 && Decode(packed, n) == 1
  {
    hide Val, Decode, GetBits, Canonical;
    var out := Encode(0, n);
    RoundTripValue(0, n);
    ZeroLow(n);
    GetBitsLow(out);
    GetBitsLow(out + 2);
    forall j: nat
      ensures GetBits(out, j) == if j < n && GetBits(out + 2, j) == 3 then 1 else GetBits(out + 2, j)
    {
      if j > 0 {
        GetBitsUp(out, j);
        GetBitsUp(out + 2, j);
        ZeroCodes(n, j);
      }
    }
    SpareDecodes(n);
  }

  lemma ZeroLow(n: nat)
    requires n >= 1
    ensures Encode(0, n) % 4 == 1
  {
    assert Expand(0, n)[0] == 0;
  }

  lemma ZeroCodes(n: nat, j: nat)
    ensures j < n ==> GetBits(Encode(0, n), j) != 3
  {
    EncodeTrits(0, n);
  }

  lemma SpareDecodes(n: nat)
    requires n >= 1
    ensures Decode(Encode(0, n) + 2, n) == 1
  {
    var w := Encode(0, n);
    ZeroLow(n);
    TritsOfStep(w, n);
    TritsOfStep(w + 2, n);
    assert (w + 2) / 4 == w / 4;
    RoundTripValue(0, n);
    assert TritsOf(w, n)[0] == 0;
  }
}
