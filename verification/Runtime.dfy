/** The loops of the reference runtime and the helpers built from them. `n` is the source's
    trit_count; `width` is the number of bits of the word's container: 64 for the uint64_t
    copy of a loop, 128 for its unsigned __int128 copy. */
module Runtime {
  import opened CArith
  import opened BitOps
  import opened Trits
  import opened TritLogic
  import opened TritOrder
  import opened Words
  import S = TritShift
  import Ops = PackedOps
  import Laws = WordLaws

  newtype int32 = x: int | -0x8000_0000 <= x <= 0x7fff_ffff

  lemma SnocPrefix(ts: seq<Trit>, i: nat)
    requires i < |ts|
    ensures ts[..i + 1] == ts[..i] + [ts[i]]
  {
  }

  lemma Pow3Fits(n: nat)
    requires n <= 39
    ensures Pow3(n) <= INT64_MAX && MaxAbs(n) < 0x2000_0000_0000_0000
  {
    Pow3Constants();
    Pow3Mono(n, 39);
  }

  /** One turn of the decode loop stays in range. */
  lemma DecodeStep(ts: seq<Trit>, i: nat)
    requires i < |ts| <= 39
    ensures Val(ts[..i + 1]) == Val(ts[..i]) + ts[i] * Pow3(i) && Fits64(Val(ts[..i + 1]))
    ensures Pow3(i + 1) == Pow3(i) * 3 && Fits64(Pow3(i + 1)) && Fits64(ts[i] * Pow3(i))
  {
    hide Val, Pow3;
    SnocPrefix(ts, i);
    ValSnoc(ts[..i], ts[i]);
    ValBound(ts[..i + 1]);
    Pow3Step(i);
    Pow3Fits(i);
    Pow3Fits(i + 1);
    TritTimes(Pow3(i), ts[i]);
  }

  // Conversion

  method TernaryDecode(packed: nat, n: nat) returns (value: int64)
    requires n <= 39
    ensures value as int == Ops.Decode(packed, n)
  {
    value := 0;
    var pow3: int64 := 1;
    ghost var ts := TritsOf(packed, n);
    for i := 0 to n
      invariant pow3 as int == Pow3(i)
      invariant value as int == Val(ts[..i])
    {
      var bits := BitAnd(Shr(packed, 2 * i), 3);
      var trit := BitsToTrit(bits);
      DecodeStep(ts, i);
      value := value + (trit as int64) * pow3;
      pow3 := pow3 * 3;
    }
    assert ts[..n] == ts;
  }

  /** One turn of the encode loop: C's remainder and quotient, made balanced. */
  lemma BalancedStep(v: int)
    ensures var rem, q := TruncMod(v, 3), TruncDiv(v, 3);
      Digit(v) == (if rem == 2 then -1 else if rem == -2 then 1 else rem) &&
      Rest(v) == if rem == 2 then q + 1 else if rem == -2 then q - 1 else q
  {
    TruncDivMod(v, 3);
  }

  method TernaryEncode(value: int64, n: nat) returns (packed: nat)
    ensures packed == Ops.Encode(value as int, n)
  {
    packed := 0;
    var v := value;
    ghost var ts := Expand(value as int, n);
    for i := 0 to n
      invariant packed == Pack(ts[..i])
      invariant ts[i..] == Expand(v as int, n - i)
    {
      var rem := TruncMod(v as int, 3);
      BalancedStep(v as int);
      assert ts[i] == ts[i..][0] == Digit(v as int);
      assert ts[i + 1..] == ts[i..][1..] == Expand(Rest(v as int), n - i - 1);
      v := TruncDiv(v as int, 3) as int64;
      if rem == 2 {
        rem := -1;
        v := v + 1;
      } else if rem == -2 {
        rem := 1;
        v := v - 1;
      }
      SnocPrefix(ts, i);
      OrAppend(ts[..i], rem);
      packed := BitOr(packed, Shl(TritToBits(rem), 2 * i));
    }
    assert ts[..n] == ts;
  }

  // Tritwise loops

  /** One turn of every loop that fills `out` from trit 0 upwards. */
  method PushTrit(out: nat, i: nat, trit: Trit, width: nat, ghost ts: seq<Trit>)
    returns (next: nat)
    requires i < |ts| && ts[i] == trit && 2 * |ts| <= width && out == Pack(ts[..i])
    ensures next == Pack(ts[..i + 1])
  {
    SnocPrefix(ts, i);
    SetAppend(ts[..i], trit, width);
    next := SetTrit(out, i, trit, width);
  }

  method TernaryTritwiseOp(a: nat, b: nat, n: nat, op: int, width: nat) returns (out: nat)
    requires 2 * n <= width
    ensures out == Ops.Bitwise(a, b, n, op)
    ensures Canonical(out, n)
    ensures forall i: nat :: i < n ==>
      var x, y := GetTrit(a, i), GetTrit(b, i);
      GetTrit(out, i) ==
        if op == 0 then (if x <= y then x else y)
        else if op == 1 then (if x >= y then x else y)
        else if x + y > 1 then x + y - 3 else if x + y < -1 then x + y + 3 else x + y
  {
    out := 0;
    ghost var ts := Tritwise(TritsOf(a, n), TritsOf(b, n), op);
    for i := 0 to n
      invariant out == Pack(ts[..i])
    {
      var ta := GetTrit(a, i);
      var tb := GetTrit(b, i);
      var trit: Trit := 0;
      if op == 0 {
        trit := TritMin(ta, tb);
      } else if op == 1 {
        trit := TritMax(ta, tb);
      } else {
        trit := TritXor(ta, tb);
      }
      out := PushTrit(out, i, trit, width, ts);
    }
    assert ts[..n] == ts;
    Laws.BitwiseTrits(a, b, n, op);
  }

  method TernaryNot(packed: nat, n: nat, width: nat) returns (out: nat)
    requires 2 * n <= width
    ensures out == Ops.Not(packed, n)
  {
    out := 0;
    ghost var ts := Negate(TritsOf(packed, n));
    for i := 0 to n
      invariant out == Pack(ts[..i])
    {
      var trit := GetTrit(packed, i);
      var inverted: Trit := if trit == 0 then 0 else -trit;
      out := PushTrit(out, i, inverted, width, ts);
    }
    assert ts[..n] == ts;
  }

  method TernaryMajority(a: nat, b: nat, c: nat, n: nat, width: nat) returns (out: nat)
    requires 2 * n <= width
    ensures out == Ops.Maj(a, b, c, n)
  {
    out := 0;
    ghost var ts := Majority(TritsOf(a, n), TritsOf(b, n), TritsOf(c, n));
    for i := 0 to n
      invariant out == Pack(ts[..i])
    {
      var trit := TritMajority(GetTrit(a, i), GetTrit(b, i), GetTrit(c, i));
      out := PushTrit(out, i, trit, width, ts);
    }
    assert ts[..n] == ts;
  }

  /** Every trit with the spare code becomes 0; nothing else changes. */
  method TernaryNormalize(packed: nat, n: nat, width: nat) returns (out: nat)
    requires 2 * n <= width && packed < Pow2(width)
    ensures forall j: nat ::
      GetBits(out, j) == if j < n && GetBits(packed, j) == 3 then 1 else GetBits(packed, j)
  {
    out := packed;
    for i := 0 to n
      invariant out < Pow2(width)
      invariant forall j: nat ::
        GetBits(out, j) == if j < i && GetBits(packed, j) == 3 then 1 else GetBits(packed, j)
    {
      var bits := BitAnd(Shr(packed, 2 * i), 3);
      if bits == 3 {
        forall j: nat ensures GetBits(SetTrit(out, i, 0, width), j) == if i == j then 1 else GetBits(out, j) {
          GetSet(out, i, 0, j, width);
        }
        SetTritFits(out, i, 0, width);
        out := Keep(out, i, width);
        out := BitOr(out, Shl(1, 2 * i));
      }
    }
  }

  // Shifts and rotations

  method TernaryShiftLeft(packed: nat, n: nat, shift: nat, width: nat) returns (out: nat)
    requires 2 * n <= width
    ensures out == Ops.ShlWord(packed, n, shift)
    ensures n == 0 ==> out == packed
    ensures n > 0 ==> out == Ops.Encode(Pow3(shift % n) * Ops.Decode(packed, n), n)
  {
    hide GetTrit, Canonical, Ops.Encode, Ops.Decode;
    out := 0;
    if n == 0 {
      return packed;
    }
    var s := shift % n;
    ghost var ts := S.ShiftLeft(TritsOf(packed, n), s);
    for i := 0 to n
      invariant out == Pack(ts[..i])
    {
      var trit: Trit := 0;
      if i >= s {
        trit := GetTrit(packed, i - s);
      }
      out := PushTrit(out, i, trit, width, ts);
    }
    assert ts[..n] == ts;
    Laws.ShlScales(packed, n, shift);
  }

  method TernaryShiftRight(packed: nat, n: nat, shift: nat, width: nat) returns (out: nat)
    requires 2 * n <= width
    ensures out == Ops.ShrWord(packed, n, shift)
    ensures n == 0 ==> out == packed
    ensures n > 0 ==> Canonical(out, n) && forall i: nat :: i < n ==>
      GetTrit(out, i) == GetTrit(packed, if i + shift % n < n then i + shift % n else n - 1)
  {
    hide GetTrit, Canonical, Ops.Encode, Ops.Decode;
    out := 0;
    if n == 0 {
      return packed;
    }
    var s := shift % n;
    var signTrit := GetTrit(packed, n - 1);
    ghost var ts := S.ShiftRight(TritsOf(packed, n), s);
    for i := 0 to n
      invariant out == Pack(ts[..i])
    {
      var trit := signTrit;
      if i + s < n {
        trit := GetTrit(packed, i + s);
      }
      out := PushTrit(out, i, trit, width, ts);
    }
    assert ts[..n] == ts;
    Laws.ShrTrits(packed, n, shift);
  }

  method TernaryRotateLeft(packed: nat, n: nat, shift: nat, width: nat) returns (out: nat)
    requires 2 * n <= width
    ensures out == Ops.RolWord(packed, n, shift)
    ensures n == 0 ==> out == packed
    ensures n > 0 ==> Canonical(out, n) && forall i: nat :: i < n ==>
      GetTrit(out, i) == GetTrit(packed, (i - shift) % n)
  {
    hide GetTrit, Canonical, Ops.Encode, Ops.Decode;
    out := 0;
    if n == 0 {
      return packed;
    }
    var s := shift % n;
    ghost var ts := S.RotateLeft(TritsOf(packed, n), s);
    for i := 0 to n
      invariant out == Pack(ts[..i])
    {
      var src := (i + n - s) % n;
      out := PushTrit(out, i, GetTrit(packed, src), width, ts);
    }
    assert ts[..n] == ts;
    Laws.ShiftsCanonical(packed, n, shift);
    forall i: nat | i < n ensures GetTrit(out, i) == GetTrit(packed, (i - shift) % n) {
      Laws.RolTritAt(packed, n, shift, i);
    }
  }

  method TernaryRotateRight(packed: nat, n: nat, shift: nat, width: nat) returns (out: nat)
    requires 2 * n <= width
    ensures out == Ops.RorWord(packed, n, shift)
    ensures n == 0 ==> out == packed
    ensures n > 0 ==> Canonical(out, n) && forall i: nat :: i < n ==>
      GetTrit(out, i) == GetTrit(packed, (i + shift) % n)
  {
    hide GetTrit, Canonical, Ops.Encode, Ops.Decode;
    out := 0;
    if n == 0 {
      return packed;
    }
    var s := shift % n;
    ghost var ts := S.RotateRight(TritsOf(packed, n), s);
    for i := 0 to n
      invariant out == Pack(ts[..i])
    {
      var src := (i + s) % n;
      out := PushTrit(out, i, GetTrit(packed, src), width, ts);
    }
    assert ts[..n] == ts;
    Laws.ShiftsCanonical(packed, n, shift);
    forall i: nat | i < n ensures GetTrit(out, i) == GetTrit(packed, (i + shift) % n) {
      Laws.RorTritAt(packed, n, shift, i);
    }
  }

  // Sign, choice and comparison

  /** The scan from the top finds the sign of the decoded value. */
  method TernarySign(packed: nat, n: nat) returns (sign: Trit)
    ensures sign == Sgn(Ops.Decode(packed, n))
    ensures Ops.Decode(packed, n) < 0 <==> sign == -1
    ensures Ops.Decode(packed, n) > 0 <==> sign == 1
  {
    ghost var ts := TritsOf(packed, n);
    LeadingTritIsSign(ts);
    var i: int := n - 1;
    assert ts[..n] == ts;
    while i >= 0
      invariant -1 <= i < n
      invariant LeadingTrit(ts) == LeadingTrit(ts[..i + 1])
    {
      assert ts[..i + 1][..i] == ts[..i];
      var trit := GetTrit(packed, i);
      if trit != 0 {
        return trit;
      }
      i := i - 1;
    }
    sign := 0;
  }

  method TernaryTmux(sel: nat, neg: nat, zero: nat, pos: nat, n: nat) returns (r: nat)
    requires n <= 39
    ensures r == Ops.BySign(LeadingTrit(TritsOf(sel, n)), neg, zero, pos)
    ensures Ops.Decode(sel, n) < 0 ==> r == neg
    ensures Ops.Decode(sel, n) == 0 ==> r == zero
    ensures Ops.Decode(sel, n) > 0 ==> r == pos
  {
    LeadingTritIsSign(TritsOf(sel, n));
    var cond := TernaryDecode(sel, n);
    if cond < 0 {
      return neg;
    }
    if cond > 0 {
      return pos;
    }
    r := zero;
  }

  method TernarySignjmp(packed: nat, n: nat, neg: int32, zero: int32, pos: int32)
    returns (target: int32)
    requires n <= 39
    ensures target == Ops.BySign(LeadingTrit(TritsOf(packed, n)), neg, zero, pos)
    ensures Ops.Decode(packed, n) < 0 ==> target == neg
    ensures Ops.Decode(packed, n) == 0 ==> target == zero
    ensures Ops.Decode(packed, n) > 0 ==> target == pos
  {
    LeadingTritIsSign(TritsOf(packed, n));
    var value := TernaryDecode(packed, n);
    if value < 0 {
      return neg;
    }
    if value > 0 {
      return pos;
    }
    target := zero;
  }

  /** `cmp` decodes both words; what it returns is the lexicographic order of their trits. */
  method CmpT(a: nat, b: nat, n: nat) returns (c: int32)
    requires n <= 39
    ensures c as int == LexCompare(TritsOf(a, n), TritsOf(b, n)) == Ops.Cmp(a, b, n)
    ensures Ops.Decode(a, n) < Ops.Decode(b, n) <==> c == -1
    ensures Ops.Decode(a, n) > Ops.Decode(b, n) <==> c == 1
    ensures Ops.Decode(a, n) == Ops.Decode(b, n) <==> c == 0
  {
    LexCompareIsOrder(TritsOf(a, n), TritsOf(b, n));
    var va := TernaryDecode(a, n);
    var vb := TernaryDecode(b, n);
    if va < vb {
      return -1;
    }
    if va > vb {
      return 1;
    }
    c := 0;
  }

  // Arithmetic helpers

  lemma DecodeBound(w: nat, n: nat)
    requires n <= 39
    ensures -0x2000_0000_0000_0000 < Ops.Decode(w, n) < 0x2000_0000_0000_0000
  {
    ValBound(TritsOf(w, n));
    Pow3Fits(n);
  }

  method AddT(a: nat, b: nat, n: nat) returns (r: nat)
    requires n <= 39
    ensures r == Ops.Add(a, b, n)
    ensures Laws.IsResidue(Ops.Decode(r, n), Ops.Decode(a, n) + Ops.Decode(b, n), n)
  {
    hide Ops.Decode, Ops.Encode, Laws.IsResidue;
    Laws.ArithmeticMeaning(a, b, n);
    var va := TernaryDecode(a, n);
    var vb := TernaryDecode(b, n);
    DecodeBound(a, n);
    DecodeBound(b, n);
    r := TernaryEncode(va + vb, n);
  }

  method SubT(a: nat, b: nat, n: nat) returns (r: nat)
    requires n <= 39
    ensures r == Ops.Sub(a, b, n)
    ensures Laws.IsResidue(Ops.Decode(r, n), Ops.Decode(a, n) - Ops.Decode(b, n), n)
  {
    hide Ops.Decode, Ops.Encode, Laws.IsResidue;
    Laws.ArithmeticMeaning(a, b, n);
    var va := TernaryDecode(a, n);
    var vb := TernaryDecode(b, n);
    DecodeBound(a, n);
    DecodeBound(b, n);
    r := TernaryEncode(va - vb, n);
  }

  /** The product of two decoded words is the one place where `int64_t` can overflow. */
  method MulT(a: nat, b: nat, n: nat) returns (r: nat)
    requires n <= 39 && Fits64(Ops.Decode(a, n) * Ops.Decode(b, n))
    ensures r == Ops.Mul(a, b, n)
    ensures Laws.IsResidue(Ops.Decode(r, n), Ops.Decode(a, n) * Ops.Decode(b, n), n)
  {
    hide Ops.Decode, Ops.Encode, Laws.IsResidue;
    Laws.ArithmeticMeaning(a, b, n);
    var va := TernaryDecode(a, n);
    var vb := TernaryDecode(b, n);
    r := TernaryEncode(va * vb, n);
  }

  method NegT(a: nat, n: nat) returns (r: nat)
    requires n <= 39
    ensures r == Ops.Neg(a, n) && Ops.Decode(r, n) == -Ops.Decode(a, n)
  {
    hide Ops.Decode, Ops.Encode;
    Laws.ArithmeticMeaning(a, a, n);
    var va := TernaryDecode(a, n);
    DecodeBound(a, n);
    r := TernaryEncode(-va, n);
  }

  method DivT(a: nat, b: nat, n: nat) returns (r: nat)
    requires n <= 39
    ensures r == Ops.Div(a, b, n)
    ensures Ops.Decode(r, n) == if Ops.Decode(b, n) == 0 then 0 else TruncDiv(Ops.Decode(a, n), Ops.Decode(b, n))
  {
    hide Ops.Decode, Ops.Encode, TruncDiv, TruncMod;
    if Ops.Decode(b, n) == 0 {
      Laws.DivideByZero(a, b, n);
    } else {
      Laws.QuotientsInRange(a, b, n);
    }
    var va := TernaryDecode(a, n);
    var vb := TernaryDecode(b, n);
    DecodeBound(a, n);
    if vb == 0 {
      r := TernaryEncode(0, n);
    } else {
      TruncDivMod(va as int, vb as int);
      r := TernaryEncode(TruncDiv(va as int, vb as int) as int64, n);
    }
  }

  method ModT(a: nat, b: nat, n: nat) returns (r: nat)
    requires n <= 39
    ensures r == Ops.Mod(a, b, n)
    ensures Ops.Decode(r, n) == if Ops.Decode(b, n) == 0 then 0 else TruncMod(Ops.Decode(a, n), Ops.Decode(b, n))
  {
    hide Ops.Decode, Ops.Encode, TruncDiv, TruncMod;
    if Ops.Decode(b, n) == 0 {
      Laws.DivideByZero(a, b, n);
    } else {
      Laws.QuotientsInRange(a, b, n);
    }
    var va := TernaryDecode(a, n);
    var vb := TernaryDecode(b, n);
    DecodeBound(b, n);
    if vb == 0 {
      r := TernaryEncode(0, n);
    } else {
      TruncDivMod(va as int, vb as int);
      r := TernaryEncode(TruncMod(va as int, vb as int) as int64, n);
    }
  }

  method TernaryMuladd(a: nat, b: nat, c: nat, n: nat) returns (r: nat)
    requires n <= 39 && Fits64(Ops.Decode(a, n) * Ops.Decode(b, n))
    requires Fits64(Ops.Decode(a, n) * Ops.Decode(b, n) + Ops.Decode(c, n))
    ensures r == Ops.MulAdd(a, b, c, n) == Ops.Add(Ops.Mul(a, b, n), c, n)
  {
    hide Ops.Decode, Ops.Encode;
    Laws.FusedIsUnfused(a, b, c, n);
    var va := TernaryDecode(a, n);
    var vb := TernaryDecode(b, n);
    var vc := TernaryDecode(c, n);
    r := TernaryEncode(va * vb + vc, n);
  }

  method TernaryRound(packed: nat, n: nat, drop: nat) returns (r: nat)
    requires n <= 39
    ensures r == Ops.Round(packed, n, drop)
    ensures drop >= n ==> r == 0
    ensures drop < n ==> Ops.Decode(r, n) == TruncDiv(Ops.Decode(packed, n), Pow3(drop))
  {
    if drop >= n {
      return 0;
    }
    Laws.RoundIsTruncation(packed, n, drop);
    var value := TernaryDecode(packed, n);
    DecodeBound(packed, n);
    var divisor: int64 := 1;
    for i := 0 to drop
      invariant divisor as int == Pow3(i)
    {
      Pow3Fits(i + 1);
      divisor := divisor * 3;
    }
    TruncDivMod(value as int, divisor as int);
    r := TernaryEncode(TruncDiv(value as int, divisor as int) as int64, n);
  }

  // The `int` shift counts of the public helpers

  method ShlT(a: nat, n: nat, shift: int32, width: nat) returns (r: nat)
    requires 2 * n <= width
    ensures r == Ops.ShlWord(a, n, Ops.Count(shift as int))
    ensures n > 0 && 0x1_0000_0000 % n == 0 ==>
      r == Ops.Encode(Pow3(shift as int % n) * Ops.Decode(a, n), n)
  {
    if n > 0 && 0x1_0000_0000 % n == 0 {
      Laws.IntCounts(a, n, shift as int);
    }
    r := TernaryShiftLeft(a, n, Ops.Count(shift as int), width);
  }

  method ShrT(a: nat, n: nat, shift: int32, width: nat) returns (r: nat)
    requires 2 * n <= width
    ensures r == Ops.ShrWord(a, n, Ops.Count(shift as int))
    ensures n > 0 && 0x1_0000_0000 % n == 0 ==>
      Ops.Decode(r, n) == Laws.Kept(a, n, shift as int % n) + GetTrit(a, n - 1) * S.TopWeight(n, shift as int % n)
    ensures n > 0 ==> Canonical(r, n)
  {
    if n > 0 && 0x1_0000_0000 % n == 0 {
      Laws.IntCounts(a, n, shift as int);
    }
    r := TernaryShiftRight(a, n, Ops.Count(shift as int), width);
  }

  method RolT(a: nat, n: nat, shift: int32, width: nat) returns (r: nat)
    requires 2 * n <= width
    ensures r == Ops.RolWord(a, n, Ops.Count(shift as int))
    ensures n > 0 && 0x1_0000_0000 % n == 0 ==> Canonical(r, n) && forall i: nat :: i < n ==>
      GetTrit(r, i) == GetTrit(a, (i - shift as int) % n)
  {
    if n > 0 && 0x1_0000_0000 % n == 0 {
      Laws.IntCounts(a, n, shift as int);
    }
    r := TernaryRotateLeft(a, n, Ops.Count(shift as int), width);
  }

  method RorT(a: nat, n: nat, shift: int32, width: nat) returns (r: nat)
    requires 2 * n <= width
    ensures r == Ops.RorWord(a, n, Ops.Count(shift as int))
    ensures n > 0 && 0x1_0000_0000 % n == 0 ==> Canonical(r, n) && forall i: nat :: i < n ==>
      GetTrit(r, i) == GetTrit(a, (i + shift as int) % n)
  {
    if n > 0 && 0x1_0000_0000 % n == 0 {
      Laws.IntCounts(a, n, shift as int);
    }
    r := TernaryRotateRight(a, n, Ops.Count(shift as int), width);
  }
}
