/** Tritwise operations on numerals and what they do to values. */
module TritLogic {
  import opened CArith
  import opened Trits

  function TritMin(a: Trit, b: Trit): Trit {
    if a < b then a else b
  }

  function TritMax(a: Trit, b: Trit): Trit {
    if a > b then a else b
  }

  /** The sum modulo 3, balanced. */
  function TritXor(a: Trit, b: Trit): Trit {
    var sum := a + b;
    var mod := TruncMod(TruncMod(sum, 3) + 3, 3);
    if mod == 0 then 0 else if mod == 1 then 1 else -1
  }

  function TritMajority(a: Trit, b: Trit, c: Trit): Trit {
    if a == b || a == c then a else if b == c then b else 0
  }

  /** `op` 0 is the minimum, 1 the maximum, anything else the sum modulo 3. */
  function TritOp(a: Trit, b: Trit, op: int): Trit {
    if op == 0 then TritMin(a, b) else if op == 1 then TritMax(a, b) else TritXor(a, b)
  }

  const MIN := 0
  const MAX := 1
  const XOR := 2

  function Tritwise(a: seq<Trit>, b: seq<Trit>, op: int): (c: seq<Trit>)
    requires |a| == |b|
    ensures |c| == |a|
  {
    seq(|a|, i requires 0 <= i < |a| => TritOp(a[i], b[i], op))
  }

  function Majority(a: seq<Trit>, b: seq<Trit>, c: seq<Trit>): (d: seq<Trit>)
    requires |a| == |b| == |c|
    ensures |d| == |a|
  {
    seq(|a|, i requires 0 <= i < |a| => TritMajority(a[i], b[i], c[i]))
  }

  function Negate(a: seq<Trit>): (b: seq<Trit>)
    ensures |b| == |a|
  {
    seq(|a|, i requires 0 <= i < |a| => -a[i])
  }

  lemma TritXorIsSum(a: Trit, b: Trit)
    ensures TritXor(a, b) == Digit(a + b)
    ensures TritXor(a, b) == if a + b > 1 then a + b - 3 else if a + b < -1 then a + b + 3 else a + b
  {
  }

  lemma TritwiseTail(a: seq<Trit>, b: seq<Trit>, op: int)
    requires |a| == |b| > 0
    ensures Tritwise(a, b, op)[1..] == Tritwise(a[1..], b[1..], op)
  {
  }

  /** Inverting every trit negates the value. */
  lemma {:induction false} NegateVal(a: seq<Trit>)
    ensures Val(Negate(a)) == -Val(a)
  {
    if a != [] {
      NegateVal(a[1..]);
      assert Negate(a)[1..] == Negate(a[1..]);
    }
  }

  /** Tritwise minimum and maximum redistribute the trits and keep the sum. */
  lemma {:induction false} MinPlusMax(a: seq<Trit>, b: seq<Trit>)
    requires |a| == |b|
    ensures Val(Tritwise(a, b, MIN)) + Val(Tritwise(a, b, MAX)) == Val(a) + Val(b)
  {
    if a != [] {
      MinPlusMax(a[1..], b[1..]);
      TritwiseTail(a, b, MIN);
      TritwiseTail(a, b, MAX);
    }
  }

  lemma {:induction false} ValMonotone(a: seq<Trit>, b: seq<Trit>)
    requires |a| == |b| && forall i :: 0 <= i < |a| ==> a[i] <= b[i]
    ensures Val(a) <= Val(b)
  {
    if a != [] {
      ValMonotone(a[1..], b[1..]);
    }
  }

  lemma MinBelow(a: seq<Trit>, b: seq<Trit>)
    requires |a| == |b|
    ensures Val(Tritwise(a, b, MIN)) <= Val(a) && Val(Tritwise(a, b, MIN)) <= Val(b)
    ensures Val(a) <= Val(Tritwise(a, b, MAX)) && Val(b) <= Val(Tritwise(a, b, MAX))
  {
    ValMonotone(Tritwise(a, b, MIN), a);
    ValMonotone(Tritwise(a, b, MIN), b);
    ValMonotone(a, Tritwise(a, b, MAX));
    ValMonotone(b, Tritwise(a, b, MAX));
  }

  /** Majority is the median. */
  lemma MajorityMedian(a: seq<Trit>, b: seq<Trit>, c: seq<Trit>)
    requires |a| == |b| == |c|
    ensures Majority(a, b, c)
         == Tritwise(Tritwise(a, b, MIN), Tritwise(Tritwise(a, c, MIN), Tritwise(b, c, MIN), MAX), MAX)
  {
  }

  // Carry-free addition

  lemma XorAssociative(a: seq<Trit>, b: seq<Trit>, c: seq<Trit>)
    requires |a| == |b| == |c|
    ensures Tritwise(Tritwise(a, b, XOR), c, XOR) == Tritwise(a, Tritwise(b, c, XOR), XOR)
  {
    forall i | 0 <= i < |a|
      ensures TritXor(TritXor(a[i], b[i]), c[i]) == TritXor(a[i], TritXor(b[i], c[i]))
    {
      XorAssociativeTrit(a[i], b[i], c[i]);
    }
  }

  lemma XorAssociativeTrit(a: Trit, b: Trit, c: Trit)
    ensures TritXor(TritXor(a, b), c) == TritXor(a, TritXor(b, c))
  {
    TritXorIsSum(a, b);
    TritXorIsSum(b, c);
    TritXorIsSum(TritXor(a, b), c);
    TritXorIsSum(a, TritXor(b, c));
  }

  lemma XorCommutative(a: seq<Trit>, b: seq<Trit>)
    requires |a| == |b|
    ensures Tritwise(a, b, XOR) == Tritwise(b, a, XOR)
  {
    forall i | 0 <= i < |a| ensures TritXor(a[i], b[i]) == TritXor(b[i], a[i]) {
      TritXorIsSum(a[i], b[i]);
      TritXorIsSum(b[i], a[i]);
    }
  }

  lemma XorCancel(a: seq<Trit>, b: seq<Trit>)
    requires |a| == |b|
    ensures Tritwise(Tritwise(a, b, XOR), Negate(b), XOR) == a
  {
    forall i | 0 <= i < |a| ensures TritXor(TritXor(a[i], b[i]), -b[i]) == a[i] {
      TritXorIsSum(a[i], b[i]);
      TritXorIsSum(TritXor(a[i], b[i]), -b[i]);
    }
  }

  function TritSum(a: Trit, b: Trit): int {
    a + b
  }

  /** The carry each position would hand to the next one. */
  function Carries(a: seq<Trit>, b: seq<Trit>): (c: seq<Trit>)
    requires |a| == |b|
    ensures |c| == |a|
  {
    seq(|a|, i requires 0 <= i < |a| =>
      if TritSum(a[i], b[i]) > 1 then 1 else if TritSum(a[i], b[i]) < -1 then -1 else 0)
  }

  lemma {:induction false} XorPlusCarries(a: seq<Trit>, b: seq<Trit>)
    requires |a| == |b|
    ensures Val(a) + Val(b) == Val(Tritwise(a, b, XOR)) + 3 * Val(Carries(a, b))
  {
    if a != [] {
      XorPlusCarries(a[1..], b[1..]);
      TritwiseTail(a, b, XOR);
      assert Carries(a, b)[1..] == Carries(a[1..], b[1..]);
      TritXorIsSum(a[0], b[0]);
    }
  }

  /** No pair below the top one carries. */
  predicate CarryFree(a: seq<Trit>, b: seq<Trit>)
    requires |a| == |b|
  {
    forall i :: 0 <= i < |a| - 1 ==> -1 <= TritSum(a[i], b[i]) <= 1
  }

  lemma CarryFreeIff(a: seq<Trit>, b: seq<Trit>)
    requires |a| == |b| > 0
    ensures CarryFree(a, b) <==> Carries(a, b)[..|a| - 1] == Repeat(0, |a| - 1)
  {
    var low, z := Carries(a, b)[..|a| - 1], Repeat(0, |a| - 1);
    if low == z {
      forall i | 0 <= i < |a| - 1 ensures -1 <= TritSum(a[i], b[i]) <= 1 {
        assert low[i] == z[i];
      }
    }
  }

  /** What separates the sum from the tritwise sum: the carries below the top, and the top's. */
  lemma XorDistance(a: seq<Trit>, b: seq<Trit>)
    requires |a| == |b| > 0
    ensures var m := |a| - 1; var c := Carries(a, b);
      Val(a) + Val(b) - Val(Tritwise(a, b, XOR)) == 3 * Val(c[..m]) + c[m] * Pow3(|a|)
  {
    var m, c := |a| - 1, Carries(a, b);
    XorPlusCarries(a, b);
    ValTop(c);
    MulAssoc(3, Pow3(m), c[m]);
  }

  lemma CarriesCancel(low: seq<Trit>, top: int, k: int)
    requires 3 * Val(low) + top * Pow3(|low| + 1) == k * Pow3(|low| + 1)
    ensures low == Repeat(0, |low|)
  {
    var p := Pow3(|low|);
    MulAssoc(3, top, p);
    MulAssoc(3, k, p);
    assert top * Pow3(|low| + 1) == 3 * (top * p) by { MulAssoc(top, 3, p); }
    assert k * Pow3(|low| + 1) == 3 * (k * p) by { MulAssoc(k, 3, p); }
    MulDistrib(k, top, p);
    ZeroVal(|low|);
    ValUniqueBy(low, Repeat(0, |low|), k - top);
  }

  lemma CarryFreeAdds(a: seq<Trit>, b: seq<Trit>)
    requires |a| == |b|
    ensures CarryFree(a, b) ==> Tritwise(a, b, XOR) == Expand(Val(a) + Val(b), |a|)
  {
    hide Val, Pow3, Expand, Tritwise, Carries, Repeat;
    if CarryFree(a, b) && a != [] {
      var x, c := Tritwise(a, b, XOR), Carries(a, b);
      XorDistance(a, b);
      CarryFreeIff(a, b);
      ZeroVal(|a| - 1);
      CongIntro(Val(a) + Val(b), Val(x), Pow3(|a|), c[|a| - 1]);
      ExpandIs(Val(a) + Val(b), x);
    }
  }

  lemma AddsCarryFree(a: seq<Trit>, b: seq<Trit>)
    requires |a| == |b|
    ensures Tritwise(a, b, XOR) == Expand(Val(a) + Val(b), |a|) ==> CarryFree(a, b)
  {
    hide Val, Pow3, Expand, Tritwise, Carries, Repeat;
    if Tritwise(a, b, XOR) == Expand(Val(a) + Val(b), |a|) && a != [] {
      var c := Carries(a, b);
      XorDistance(a, b);
      ExpandCong(Val(a) + Val(b), |a|);
      var k := CongElim(Val(a) + Val(b), Val(Tritwise(a, b, XOR)), Pow3(|a|));
      CarriesCancel(c[..|a| - 1], c[|a| - 1], k);
      CarryFreeIff(a, b);
    }
  }

  /** The tritwise sum is the numeral of the sum exactly when no carry leaves a position
      below the top; what leaves the top is lost modulo 3^n in both. */
  lemma XorIsAdd(a: seq<Trit>, b: seq<Trit>)
    requires |a| == |b|
    ensures Tritwise(a, b, XOR) == Expand(Val(a) + Val(b), |a|) <==> CarryFree(a, b)
  {
    hide Val, Pow3, Expand;
    CarryFreeAdds(a, b);
    AddsCarryFree(a, b);
  }
}
