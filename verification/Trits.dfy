/** Balanced ternary numerals: sequences of trits, least significant first. */
module Trits {
  import opened CArith

  type Trit = t: int | -1 <= t <= 1

  function Pow3(n: nat): (p: nat)
    ensures p >= 1
  {
    if n == 0 then 1 else 3 * Pow3(n - 1)
  }

  lemma {:induction false} Pow3Odd(n: nat)
    ensures Pow3(n) % 2 == 1
  {
    if n > 0 {
      Pow3Odd(n - 1);
    }
  }

  /** The largest value n trits can hold. */
  function MaxAbs(n: nat): (m: int)
    ensures m >= 0 && 2 * m + 1 == Pow3(n)
  {
    Pow3Odd(n);
    (Pow3(n) - 1) / 2
  }

  predicate InRange(v: int, n: nat) {
    -MaxAbs(n) <= v <= MaxAbs(n)
  }

  /** The value of a numeral: the sum of ts[i] * 3^i. */
  function Val(ts: seq<Trit>): int {
    if ts == [] then 0 else ts[0] + 3 * Val(ts[1..])
  }

  /** The balanced residue of v modulo 3, and the quotient that goes with it. */
  function Digit(v: int): Trit {
    if v % 3 == 2 then -1 else v % 3
  }

  function Rest(v: int): (r: int)
    ensures v == 3 * r + Digit(v)
  {
    (v - Digit(v)) / 3
  }

  /** The n low trits of the balanced expansion of v. */
  function Expand(v: int, n: nat): (ts: seq<Trit>)
    ensures |ts| == n
    decreases n
  {
    if n == 0 then [] else [Digit(v)] + Expand(Rest(v), n - 1)
  }

  /** What is left of v once its n low trits are taken off. */
  function Carry(v: int, n: nat): int
    decreases n
  {
    if n == 0 then v else Carry(Rest(v), n - 1)
  }

  // Powers

  lemma {:induction false} Pow3Add(m: nat, n: nat)
    ensures Pow3(m + n) == Pow3(m) * Pow3(n)
  {
    if m > 0 {
      Pow3Add(m - 1, n);
      assert Pow3(m + n) == 3 * Pow3(m - 1 + n);
      MulAssoc(3, Pow3(m - 1), Pow3(n));
    }
  }

  lemma {:induction false} Pow3Mono(m: nat, n: nat)
    requires m <= n
    ensures Pow3(m) <= Pow3(n)
    ensures MaxAbs(m) <= MaxAbs(n)
  {
    if m < n {
      Pow3Mono(m, n - 1);
    }
  }

  lemma Pow3Step(n: nat)
    ensures Pow3(n + 1) == 3 * Pow3(n)
  {
  }

  lemma Pow3Big(n: nat)
    requires n > 0
    ensures Pow3(n) >= 3
  {
  }

  /** The constants the 64-bit bounds of the source turn on. */
  lemma Pow3Constants()
    ensures Pow3(31) == 617673396283947
    ensures Pow3(32) == 1853020188851841
    ensures Pow3(38) == 1350851717672992089
    ensures Pow3(39) == 4052555153018976267
    ensures Pow3(40) == 12157665459056928801
    ensures Pow3(41) == 36472996377170786403
  {
    assert Pow3(10) == 59049;
    Pow3Add(10, 10);
    Pow3Add(10, 20);
    assert Pow3(20) == 59049 * 59049 == 3486784401;
    assert Pow3(30) == 59049 * 3486784401 == 205891132094649;
    assert Pow3(33) == 3 * Pow3(32);
    Pow3Add(8, 30);
    assert Pow3(8) == 6561;
  }

  // Value of a numeral

  lemma {:induction false} ValAppend(a: seq<Trit>, b: seq<Trit>)
    ensures Val(a + b) == Val(a) + Pow3(|a|) * Val(b)
  {
    if a == [] {
      assert a + b == b;
    } else {
      assert (a + b)[1..] == a[1..] + b;
      ValAppend(a[1..], b);
      MulAssoc(3, Pow3(|a| - 1), Val(b));
    }
  }

  lemma ValSplit(ts: seq<Trit>, k: nat)
    requires k <= |ts|
    ensures Val(ts) == Val(ts[..k]) + Pow3(k) * Val(ts[k..])
  {
    assert ts == ts[..k] + ts[k..];
    ValAppend(ts[..k], ts[k..]);
  }

  lemma ValSnoc(ts: seq<Trit>, t: Trit)
    ensures Val(ts + [t]) == Val(ts) + Pow3(|ts|) * t
  {
    ValAppend(ts, [t]);
    assert Val([t]) == t;
  }

  lemma ValTop(ts: seq<Trit>)
    requires ts != []
    ensures Val(ts) == Val(ts[..|ts| - 1]) + Pow3(|ts| - 1) * ts[|ts| - 1]
  {
    assert ts == ts[..|ts| - 1] + [ts[|ts| - 1]];
    ValSnoc(ts[..|ts| - 1], ts[|ts| - 1]);
  }

  lemma {:induction false} ValBound(ts: seq<Trit>)
    ensures InRange(Val(ts), |ts|)
  {
    if ts != [] {
      ValBound(ts[1..]);
    }
  }

  /** Numerals of one length that agree modulo 3^n are the same numeral. */
  lemma {:induction false} ValUnique(a: seq<Trit>, b: seq<Trit>)
    requires |a| == |b| && Cong(Val(a), Val(b), Pow3(|a|))
    ensures a == b
  {
    var k := CongElim(Val(a), Val(b), Pow3(|a|));
    ValUniqueBy(a, b, k);
  }

  lemma {:induction false} ValUniqueBy(a: seq<Trit>, b: seq<Trit>, k: int)
    requires |a| == |b| && Val(a) - Val(b) == k * Pow3(|a|)
    ensures a == b
  {
    if a != [] {
      var p := k * Pow3(|a| - 1);
      assert k * Pow3(|a|) == 3 * p by {
        MulAssoc(3, k, Pow3(|a| - 1));
        MulAssoc(k, 3, Pow3(|a| - 1));
      }
      assert a[0] - b[0] == 3 * (p - Val(a[1..]) + Val(b[1..]));
      assert a[0] == b[0];
      ValUniqueBy(a[1..], b[1..], k);
      assert a == [a[0]] + a[1..] && b == [b[0]] + b[1..];
    }
  }

  lemma ValInjective(a: seq<Trit>, b: seq<Trit>)
    requires |a| == |b|
    ensures Val(a) == Val(b) <==> a == b
  {
    if Val(a) == Val(b) {
      ValUniqueBy(a, b, 0);
    }
  }

  // Constant numerals

  function Repeat(t: Trit, n: nat): (r: seq<Trit>)
    ensures |r| == n
  {
    seq(n, _ => t)
  }

  lemma {:induction false} RepeatVal(t: Trit, n: nat)
    ensures Val(Repeat(t, n)) == t * MaxAbs(n)
  {
    if n > 0 {
      RepeatVal(t, n - 1);
      assert Repeat(t, n)[1..] == Repeat(t, n - 1);
      assert MaxAbs(n) == 3 * MaxAbs(n - 1) + 1;
      MulDistrib(3 * MaxAbs(n - 1), 1, t);
      MulAssoc(t, 3, MaxAbs(n - 1));
    }
  }

  lemma ZeroVal(n: nat)
    ensures Val(Repeat(0, n)) == 0
  {
    hide Val, MaxAbs;
    RepeatVal(0, n);
  }

  // Expansion

  lemma {:induction false} ExpandCarry(v: int, n: nat)
    ensures v == Val(Expand(v, n)) + Pow3(n) * Carry(v, n)
    decreases n
  {
    if n > 0 {
      var r := Rest(v);
      ExpandCarry(r, n - 1);
      assert Expand(v, n)[1..] == Expand(r, n - 1);
      MulAssoc(3, Pow3(n - 1), Carry(r, n - 1));
    }
  }

  lemma ExpandCong(v: int, n: nat)
    ensures Cong(v, Val(Expand(v, n)), Pow3(n))
  {
    ExpandCarry(v, n);
    assert Pow3(n) * Carry(v, n) == Carry(v, n) * Pow3(n);
    CongIntro(v, Val(Expand(v, n)), Pow3(n), Carry(v, n));
  }

  /** Expansion finds the one balanced residue of v modulo 3^n. */
  lemma {:induction false} BalancedResidue(v: int, n: nat)
    ensures InRange(Val(Expand(v, n)), n) && Cong(v, Val(Expand(v, n)), Pow3(n))
    ensures forall x: int :: InRange(x, n) && Cong(v, x, Pow3(n)) ==> x == Val(Expand(v, n))
  {
    ExpandCong(v, n);
    ValBound(Expand(v, n));
    var r := Val(Expand(v, n));
    forall x: int | InRange(x, n) && Cong(v, x, Pow3(n)) ensures x == r {
      CongSym(v, x, Pow3(n));
      CongTrans(x, v, r, Pow3(n));
      var k := CongElim(x, r, Pow3(n));
      SmallMultiple(x - r, Pow3(n), k);
    }
  }

  lemma ExpandInRange(v: int, n: nat)
    ensures Val(Expand(v, n)) == v <==> InRange(v, n)
  {
    BalancedResidue(v, n);
    if InRange(v, n) {
      CongIntro(v, v, Pow3(n), 0);
    }
  }

  lemma ExpandVal(ts: seq<Trit>)
    ensures Expand(Val(ts), |ts|) == ts
  {
    ValBound(ts);
    ExpandInRange(Val(ts), |ts|);
    ValInjective(Expand(Val(ts), |ts|), ts);
  }

  /** Two integers have the same n low trits exactly when they agree modulo 3^n. */
  lemma ExpandEqual(v: int, w: int, n: nat)
    ensures Expand(v, n) == Expand(w, n) <==> Cong(v, w, Pow3(n))
  {
    ExpandCong(v, n);
    ExpandCong(w, n);
    var a, b := Val(Expand(v, n)), Val(Expand(w, n));
    if Expand(v, n) == Expand(w, n) {
      CongSym(w, a, Pow3(n));
      CongTrans(v, a, w, Pow3(n));
    }
    if Cong(v, w, Pow3(n)) {
      CongSym(v, a, Pow3(n));
      CongTrans(a, v, w, Pow3(n));
      CongTrans(a, w, b, Pow3(n));
      ValUnique(Expand(v, n), Expand(w, n));
    }
  }

  /** A numeral that agrees with v modulo 3^n is the expansion of v. */
  lemma ExpandIs(v: int, ts: seq<Trit>)
    requires Cong(v, Val(ts), Pow3(|ts|))
    ensures Expand(v, |ts|) == ts
  {
    ExpandEqual(v, Val(ts), |ts|);
    ExpandVal(ts);
  }
}
