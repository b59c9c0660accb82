/** The plugin's constants: the range test, packing and unpacking. An INTEGER_CST is its
    mathematical value together with its type. */
module Constants {
  import opened Wrappers
  import opened CArith
  import opened BitOps
  import opened Trits
  import opened Words
  import opened WordLaws
  import S = TritShift
  import Ops = PackedOps
  import R = Runtime

  /** The types the lowering tells apart. A ternary type of n trits is unsigned and 2n bits
      wide. */
  datatype Type = Ternary(trits: nat) | Integer(bits: nat, unsigned: bool) | Real(bits: nat) | Other

  const T32 := Ternary(32)

  function FitsTrits(value: int, n: nat): bool {
    n >= 40 || InRange(value, n)
  }

  /** The loop's own overflow guard never fires below 40 trits. */
  method TernaryValueFitsTrits(value: int64, n: nat) returns (fits: bool)
    ensures fits == FitsTrits(value as int, n)
  {
    if n >= 40 {
      return true;
    }
    var pow3: int64 := 1;
    for i := 0 to n
      invariant pow3 as int == Pow3(i)
    {
      PowerBelowThird(i);
      if pow3 > 0x7fff_ffff_ffff_ffff / 3 {
        assert false;
      }
      pow3 := pow3 * 3;
    }
    var maxAbs := (pow3 - 1) / 2;
    fits := -maxAbs <= value <= maxAbs;
  }

  lemma PowerBelowThird(i: nat)
    requires i <= 38
    ensures Pow3(i) <= INT64_MAX / 3
  {
    Pow3Constants();
    Pow3Mono(i, 38);
  }

  /** The range test is exact on int64_t for every trit count but 40, where it accepts
      values that 40 trits cannot hold. */
  lemma RangeTestExact(n: nat)
    ensures (forall v: int :: Fits64(v) ==> (FitsTrits(v, n) <==> InRange(v, n))) <==> n != 40
  {
    Pow3Constants();
    if n == 40 {
      assert Fits64(INT64_MAX) && FitsTrits(INT64_MAX, n) && !InRange(INT64_MAX, n);
    } else if n > 40 {
      Pow3Mono(41, n);
    }
  }

  /** None when the constant is left as it is. */
  function PackConstant(value: int, ty: Type): Option<int> {
    if !ty.Ternary? || ty.trits > 32 || !Fits64(value) || !FitsTrits(value, ty.trits) then None
    else Some(Ops.Encode(value, ty.trits))
  }

  method TernaryPackConstant(value: int, ty: Type) returns (out: Option<int>)
    ensures out == PackConstant(value, ty)
    ensures out.Some? <==> ty.Ternary? && ty.trits <= 32 && InRange(value, ty.trits)
  {
    PackExact(value, ty);
    if !ty.Ternary? {
      return None;
    }
    if ty.trits > 32 {
      return None;
    }
    if !Fits64(value) {
      return None;
    }
    var fits := TernaryValueFitsTrits(value as int64, ty.trits);
    if !fits {
      return None;
    }
    var packed := R.TernaryEncode(value as int64, ty.trits);
    out := Some(packed);
  }

  predicate FitsUnsigned64(value: int) {
    0 <= value < 0x1_0000_0000_0000_0000
  }

  function UnpackConstant(value: int, ty: Type): Option<int> {
    if !ty.Ternary? || ty.trits > 32 || !FitsUnsigned64(value) then None
    else Some(Ops.Decode(value, ty.trits))
  }

  method TernaryUnpackConstant(value: int, ty: Type) returns (out: Option<int>)
    ensures out == UnpackConstant(value, ty)
    ensures out.Some? <==> ty.Ternary? && ty.trits <= 32 && 0 <= value < 0x1_0000_0000_0000_0000
    ensures out.Some? ==> out.value == Ops.Decode(value, ty.trits)
  {
    if !ty.Ternary? {
      return None;
    }
    if ty.trits > 32 {
      return None;
    }
    if !FitsUnsigned64(value) {
      return None;
    }
    var logical := R.TernaryDecode(value, ty.trits);
    out := Some(logical as int);
  }

  lemma Width64(n: nat)
    requires n <= 32
    ensures Pow2(2 * n) <= 0x1_0000_0000_0000_0000
  {
    Pow2Constants();
    Pow2Mono(2 * n, 64);
  }

  lemma Pow2Constants()
    ensures Pow2(50) == 0x4_0000_0000_0000 && Pow2(64) == 0x1_0000_0000_0000_0000
  {
    Pow2Ten();
    hide Pow2;
    Pow2Add(10, 10);
    Pow2Add(10, 20);
    Pow2Add(20, 30);
    Pow2Add(4, 10);
    Pow2Add(14, 50);
  }

  lemma Pow2Ten()
    ensures Pow2(4) == 16 && Pow2(10) == 1024
  {
  }

  lemma EncodeFits(v: int, n: nat)
    requires n <= 32
    ensures FitsUnsigned64(Ops.Encode(v, n))
  {
    EncodeTrits(v, n);
    Width64(n);
  }

  lemma RangeFits64(v: int, n: nat)
    requires n <= 32 && InRange(v, n)
    ensures Fits64(v)
  {
    Pow3Constants();
    Pow3Mono(n, 32);
  }

  /** Packing accepts exactly the values the trits can hold, and unpacking inverts it. */
  lemma UnpackPack(v: int, n: nat)
    requires n <= 32
    ensures PackConstant(v, Ternary(n)).Some? <==> InRange(v, n)
    ensures InRange(v, n) ==> PackConstant(v, Ternary(n)) == Some(Ops.Encode(v, n))
    ensures InRange(v, n) ==> UnpackConstant(Ops.Encode(v, n), Ternary(n)) == Some(v)
  {
    if InRange(v, n) {
      RangeFits64(v, n);
      RoundTripValue(v, n);
      EncodeFits(v, n);
    }
  }

  /** On every type and value: packed are exactly the ternary constants of at most 32 trits
      that the trits can hold. */
  lemma PackExact(v: int, ty: Type)
    ensures PackConstant(v, ty).Some? <==> ty.Ternary? && ty.trits <= 32 && InRange(v, ty.trits)
    ensures PackConstant(v, ty).Some? ==> PackConstant(v, ty) == Some(Ops.Encode(v, ty.trits))
  {
    if ty.Ternary? && ty.trits <= 32 {
      UnpackPack(v, ty.trits);
    }
  }

  // Packing a packed word

  lemma {:induction false} PackAppend(a: seq<Trit>, b: seq<Trit>)
    ensures Pack(a + b) == Pack(a) + Pow2(2 * |a|) * Pack(b)
  {
    if a == [] {
      assert a + b == b;
    } else {
      hide TritToBits;
      assert (a + b)[1..] == a[1..] + b;
      PackAppend(a[1..], b);
      assert Pow2(2 * |a|) == 2 * Pow2(2 * |a| - 1) == 4 * Pow2(2 * |a| - 2);
      MulAssoc(4, Pow2(2 * |a| - 2), Pack(b));
    }
  }

  lemma {:induction false} PackUpper(ts: seq<Trit>)
    ensures 3 * Pack(ts) <= 2 * (Pow2(2 * |ts|) - 1)
  {
    if ts != [] {
      PackUpper(ts[1..]);
      assert Pow2(2 * |ts|) == 2 * Pow2(2 * |ts| - 1) == 4 * Pow2(2 * |ts| - 2);
    }
  }

  lemma {:induction false} PackZero(n: nat)
    ensures Pack(Repeat(-1, n)) == 0
  {
    if n > 0 {
      PackZero(n - 1);
      assert Repeat(-1, n)[1..] == Repeat(-1, n - 1);
    }
  }

  /** A packed numeral is 0 exactly when its value is the lowest. */
  lemma LowestIff(ts: seq<Trit>)
    ensures Pack(ts) == 0 <==> Val(ts) == -MaxAbs(|ts|)
  {
    var z := Repeat(-1, |ts|);
    PackZero(|ts|);
    RepeatVal(-1, |ts|);
    PackInjective(ts, z);
    ValInjective(ts, z);
  }

  lemma MulOne(p: int, x: int)
    requires p > 0 && x >= 0
    ensures x == 0 ==> p * x == 0
    ensures x > 0 ==> p * x >= p
  {
  }

  /** A numeral of 32 trits is at least 3^25 above the lowest exactly when some trit of its
      top seven is not -1. */
  lemma TopSeven(ts: seq<Trit>)
    requires |ts| == 32
    ensures Val(ts) + MaxAbs(32) >= Pow3(25) <==> Pack(ts[25..]) != 0
  {
    hide Val, Pow3, Pack;
    var lo, hi := ts[..25], ts[25..];
    ValSplit(ts, 25);
    ValBound(lo);
    ValBound(hi);
    LowestIff(hi);
    Pow3Add(25, 7);
    TopSevenArith(Val(lo), Val(hi), Pow3(25), MaxAbs(25), MaxAbs(7), Pow3(7), MaxAbs(32), Pow3(32));
  }

  lemma TopSevenArith(lo: int, hi: int, p: int, m: int, h: int, q: int, top: int, n: int)
    requires p == 2 * m + 1 && q == 2 * h + 1 && n == 2 * top + 1 && n == p * q
    requires -m <= lo <= m && -h <= hi && p > 0
    ensures lo + p * hi + top >= p <==> hi != -h
  {
    MulDistrib(2 * h, 1, p);
    MulAssoc(p, 2, h);
    MulAssoc(2, p, h);
    assert top == p * h + m;
    MulDistrib(hi, h, p);
    MulOne(p, hi + h);
  }

  /** A word with a trit above -1 among its top seven is at least 2^50; the others are below
      the largest packable value. */
  lemma WordSplit(ts: seq<Trit>)
    requires |ts| == 32
    ensures Pack(ts) > MaxAbs(32) <==> Pack(ts[25..]) != 0
  {
    var lo, hi := ts[..25], ts[25..];
    assert ts == lo + hi;
    PackAppend(lo, hi);
    PackUpper(lo);
    Pow2Constants();
    Pow3Constants();
    MulOne(Pow2(50), Pack(hi));
  }

  /** Packing the word packed for k is refused exactly when k is at least 3^25 above the
      lowest value, that is when one of the word's seven top trits is not -1. */
  lemma {:induction false} RepackRefused(k: int)
    requires InRange(k, 32)
    ensures PackConstant(Ops.Encode(k, 32), T32) == None <==> k + MaxAbs(32) >= Pow3(25)
  {
    var ts := Expand(k, 32);
    ExpandInRange(k, 32);
    TopSeven(ts);
    WordSplit(ts);
    UnpackPack(Pack(ts), 32);
  }

  /** So every word whose top trit is not -1 is refused, and the lowest value is not. */
  lemma {:induction false} RepackRefusedAbove(k: int)
    requires -MaxAbs(31) <= k <= MaxAbs(32)
    ensures PackConstant(Ops.Encode(k, 32), T32) == None
  {
    Pow3Constants();
    Pow3Mono(25, 31);
    RepackRefused(k);
  }

  lemma {:induction false} LowestRepacks()
    ensures Ops.Encode(-MaxAbs(32), 32) == 0
    ensures PackConstant(0, T32) == Some(Ops.Encode(0, 32)) && Ops.Encode(0, 32) != 0
  {
    ExpandInRange(-MaxAbs(32), 32);
    LowestIff(Expand(-MaxAbs(32), 32));
    UnpackPack(0, 32);
    ExpandInRange(0, 32);
    LowestIff(Expand(0, 32));
    Pow3Constants();
  }
}
