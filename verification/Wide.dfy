/** The 128-bit container, whose 64 trits hold more than int64_t can. Signed overflow is
    taken to wrap here; the running power of 3 passes the range at 3^40. */
module Wide {
  import opened CArith
  import opened BitOps
  import opened Trits
  import opened TritOrder
  import opened Words
  import opened Ops = PackedOps
  import opened WordLaws
  import R = Runtime

  /** The value decode_u128 returns when its int64_t arithmetic wraps. */
  function DecodeWrapped(packed: nat, n: nat): int {
    Wrap64(Decode(packed, n))
  }

  /** The decode loop with each operation wrapped: the wraps cancel, whatever n is. */
  method TernaryDecodeU128(packed: nat, n: nat) returns (value: int)
    ensures value == DecodeWrapped(packed, n)
  {
    value := 0;
    var pow3 := 1;
    ghost var ts := TritsOf(packed, n);
    for i := 0 to n
      invariant pow3 == Wrap64(Pow3(i))
      invariant value == Wrap64(Val(ts[..i]))
    {
      var bits := BitAnd(Shr(packed, 2 * i), 3);
      var trit := BitsToTrit(bits);
      WrappedStep(ts, i);
      value := Wrap64(value + Wrap64(trit * pow3));
      pow3 := Wrap64(3 * pow3);
    }
    assert ts[..n] == ts;
  }

  lemma WrappedStep(ts: seq<Trit>, i: nat)
    requires i < |ts|
    ensures Wrap64(Wrap64(Val(ts[..i])) + Wrap64(ts[i] * Wrap64(Pow3(i)))) == Wrap64(Val(ts[..i + 1]))
    ensures Wrap64(3 * Wrap64(Pow3(i))) == Wrap64(Pow3(i + 1))
  {
    hide Val, Pow3, Wrap64;
    R.SnocPrefix(ts, i);
    ValSnoc(ts[..i], ts[i]);
    WrapSumOfProduct(Val(ts[..i]), ts[i], Pow3(i));
    MulComm(ts[i], Pow3(i));
    Pow3Step(i);
    WrapTriple(Pow3(i));
  }

  /** The powers the decode loop forms do leave int64_t. */
  lemma PowerOverflows()
    ensures Fits64(Pow3(39)) && !Fits64(Pow3(40))
  {
    Pow3Constants();
  }

  lemma HoldsInt64(v: int, n: nat)
    requires Fits64(v) && n >= 41
    ensures InRange(v, n)
  {
    Pow3Constants();
    Pow3Mono(41, n);
  }

  /** An int64_t comes back from the wrapping pair exactly when n trits can hold it. */
  lemma WideRoundTrip(v: int, n: nat)
    requires Fits64(v)
    ensures DecodeWrapped(Encode(v, n), n) == v <==> InRange(v, n)
    ensures n >= 41 ==> DecodeWrapped(Encode(v, n), n) == v
  {
    var d := Decode(Encode(v, n), n);
    RoundTripValue(v, n);
    WrapIdentity(v);
    if n >= 41 {
      HoldsInt64(v, n);
    } else {
      Pow3Constants();
      Pow3Mono(n, 40);
      WrapIdentity(d);
    }
  }

  /** `add_t64`: both operands are decoded into int64_t, the sum wraps. */
  function AddWrapped(a: nat, b: nat, n: nat): nat {
    Encode(Wrap64(DecodeWrapped(a, n) + DecodeWrapped(b, n)), n)
  }

  function NegWrapped(a: nat, n: nat): nat {
    Encode(Wrap64(-DecodeWrapped(a, n)), n)
  }

  method AddWide(a: nat, b: nat, n: nat) returns (r: nat)
    ensures r == AddWrapped(a, b, n)
  {
    var va := TernaryDecodeU128(a, n);
    var vb := TernaryDecodeU128(b, n);
    r := R.TernaryEncode(Wrap64(va + vb) as int64, n);
  }

  method NegWide(a: nat, n: nat) returns (r: nat)
    ensures r == NegWrapped(a, n)
  {
    var va := TernaryDecodeU128(a, n);
    r := R.TernaryEncode(Wrap64(-va) as int64, n);
  }

  method TmuxWide(sel: nat, neg: nat, zero: nat, pos: nat, n: nat) returns (r: nat)
    ensures r == Ops.BySign(Sgn(DecodeWrapped(sel, n)), neg, zero, pos)
    ensures Wrap64(Ops.Decode(sel, n)) < 0 ==> r == neg
    ensures Wrap64(Ops.Decode(sel, n)) == 0 ==> r == zero
    ensures Wrap64(Ops.Decode(sel, n)) > 0 ==> r == pos
  {
    var cond := TernaryDecodeU128(sel, n);
    if cond < 0 {
      return neg;
    }
    if cond > 0 {
      return pos;
    }
    r := zero;
  }

  /** A multiple of 2^64 below 2*3^n in magnitude is a multiple of 3^n only if it is zero. */
  lemma ParityGap(d: int, j: int, k: int, p: int)
    requires p % 2 == 1 && p > 0 && d == 0x1_0000_0000_0000_0000 * k == j * p && -2 * p < d < 2 * p
    ensures d == 0
  {
    MulDistrib(j, 1, p);
    MulDistrib(j, 2, p);
    MulAtLeast(j - 2, p);
    MulAtLeast(j + 2, p);
    MulAtLeast(j, p);
    MulAtLeast(j - 1, p);
    MulAtLeast(j + 1, p);
    assert j == 1 ==> d == p;
    assert j == -1 ==> d == -p;
  }

  lemma WrapDistance(s: int, n: nat)
    requires n >= 42 && -2 * MaxAbs(n) <= s <= 2 * MaxAbs(n)
    ensures Pow3(n) % 2 == 1 && -2 * Pow3(n) < Wrap64(s) - s < 2 * Pow3(n)
  {
    Pow3Odd(n);
    Pow3Constants();
    Pow3Mono(41, n);
  }

  lemma WrapAgrees(s: int, n: nat)
    requires n >= 42 && -2 * MaxAbs(n) <= s <= 2 * MaxAbs(n)
    ensures Encode(Wrap64(s), n) == Encode(s, n) <==> Fits64(s)
  {
    hide Encode, Pow3, Wrap64, Cong;
    WrapIdentity(s);
    EncodeEqual(Wrap64(s), s, n);
    if Encode(Wrap64(s), n) == Encode(s, n) {
      var j := CongElim(Wrap64(s), s, Pow3(n));
      var k := WrapCount(s);
      WrapDistance(s, n);
      ParityGap(Wrap64(s) - s, j, -k, Pow3(n));
    }
  }

  /** Addition of 64-trit words is exact modulo 3^64 only while the exact sum fits int64_t. */
  lemma {:induction false} AddWrappedExact(a: nat, b: nat, n: nat)
    requires n >= 42
    ensures AddWrapped(a, b, n) == Add(a, b, n) <==> Fits64(Decode(a, n) + Decode(b, n))
  {
    var x, y := Decode(a, n), Decode(b, n);
    DecodeInRange(a, n);
    DecodeInRange(b, n);
    WrapPair(x, y);
    WrapAgrees(x + y, n);
  }

  lemma WrapPair(x: int, y: int)
    ensures Wrap64(Wrap64(x) + Wrap64(y)) == Wrap64(x + y)
    ensures Wrap64(-Wrap64(x)) == Wrap64(-x)
  {
    var i := WrapCount(x);
    var j := WrapCount(y);
    WrapShift(x + y, -(i + j));
    WrapShift(-x, i);
  }

  /** On 64 trits `neg` goes through int64_t and tritwise `tnot` does not: they agree
      exactly when the negated value fits. */
  lemma NegWrappedExact(a: nat, n: nat)
    requires n >= 42
    ensures NegWrapped(a, n) == Not(a, n) <==> Fits64(-Decode(a, n))
  {
    NotIsNeg(a, n);
    DecodeInRange(a, n);
    WrapPair(Decode(a, n), 0);
    WrapAgrees(-Decode(a, n), n);
  }

  /** The residue of d modulo 2^64 lies on the side of d's sign. */
  predicate WrapKeepsSign(d: int) {
    var r := d % 0x1_0000_0000_0000_0000;
    d == 0 || (d > 0 && 0 < r < 0x8000_0000_0000_0000) || (d < 0 && r >= 0x8000_0000_0000_0000)
  }

  lemma WrapSign(d: int)
    ensures Sgn(Wrap64(d)) == Sgn(d) <==> WrapKeepsSign(d)
    ensures Fits64(d) ==> WrapKeepsSign(d)
  {
    var r := d % 0x1_0000_0000_0000_0000;
    assert Wrap64(d) == if r < 0x8000_0000_0000_0000 then r else r - 0x1_0000_0000_0000_0000;
  }

  /** `tmux_t64` chooses by the sign of the wrapped value, `ternary_sign_u128` by the leading
      trit. They choose alike exactly when wrapping keeps the sign, so always when the value
      fits int64_t. */
  lemma WideSign(w: nat, n: nat)
    ensures Sgn(DecodeWrapped(w, n)) == LeadingTrit(TritsOf(w, n)) <==> WrapKeepsSign(Decode(w, n))
    ensures Fits64(Decode(w, n)) ==> WrapKeepsSign(Decode(w, n))
  {
    hide Val, LeadingTrit, Wrap64, WrapKeepsSign, Sgn;
    LeadingTritIsSign(TritsOf(w, n));
    WrapSign(Decode(w, n));
  }

  lemma {:induction false} WideSignFails()
    ensures var w := Encode(0x8000_0000_0000_0000, 64);
      Sgn(DecodeWrapped(w, 64)) == -1 && LeadingTrit(TritsOf(w, 64)) == 1
  {
    var v := 0x8000_0000_0000_0000;
    var w := Encode(v, 64);
    Pow3Constants();
    Pow3Mono(41, 64);
    RoundTripValue(v, 64);
    LeadingTritIsSign(TritsOf(w, 64));
  }

  lemma WideRange(v: int, n: nat)
    requires n >= 42 && -0x1_0000_0000_0000_0000 <= v <= 0x1_0000_0000_0000_0000
    ensures InRange(v, n)
  {
    hide Pow3;
    Pow3Constants();
    Pow3Step(41);
    Pow3Mono(42, n);
  }

  lemma Holds64(v: int, n: nat)
    requires n >= 42 && -0x1_0000_0000_0000_0000 <= v <= 0x1_0000_0000_0000_0000
    ensures Decode(Encode(v, n), n) == v
  {
    WideRange(v, n);
    hide *;
    EncodeTrits(v, n);
    ExpandInRange(v, n);
  }

  /** INT64_MAX + 1, both operands well within the trits, comes out wrong. */
  lemma {:induction false} AddWrappedFails(n: nat)
    requires n >= 42
    ensures var a, b := Encode(INT64_MAX, n), Encode(1, n);
      AddWrapped(a, b, n) != Add(a, b, n) && Decode(Add(a, b, n), n) == INT64_MAX + 1
  {
    hide Encode, Decode, AddWrapped;
    Holds64(INT64_MAX, n);
    Holds64(1, n);
    Holds64(INT64_MAX + 1, n);
    AddWrappedExact(Encode(INT64_MAX, n), Encode(1, n), n);
  }

  /** The word of INT64_MIN has a tritwise inverse, and `neg` does not give it. */
  lemma {:induction false} NegWrappedFails(n: nat)
    requires n >= 42
    ensures var a := Encode(INT64_MIN, n);
      NegWrapped(a, n) != Not(a, n) && Decode(Not(a, n), n) == -INT64_MIN
  {
    hide Encode, Decode, NegWrapped, Not;
    var a := Encode(INT64_MIN, n);
    Holds64(INT64_MIN, n);
    NegWrappedExact(a, n);
    NotIsNeg(a, n);
    ArithmeticMeaning(a, a, n);
  }
}
