/** Shifts, rotations and rounding of numerals, and their effect on values. */
module TritShift {
  import opened CArith
  import opened Trits
  import opened TritLogic

  function ShiftLeft(ts: seq<Trit>, s: nat): (r: seq<Trit>)
    ensures |r| == |ts|
  {
    seq(|ts|, i requires 0 <= i < |ts| => if i >= s then ts[i - s] else 0)
  }

  /** The vacated top positions repeat the top trit. */
  function ShiftRight(ts: seq<Trit>, s: nat): (r: seq<Trit>)
    ensures |r| == |ts|
  {
    seq(|ts|, i requires 0 <= i < |ts| => if i + s < |ts| then ts[i + s] else ts[|ts| - 1])
  }

  function RotateLeft(ts: seq<Trit>, s: nat): (r: seq<Trit>)
    requires s < |ts|
    ensures |r| == |ts|
  {
    seq(|ts|, i requires 0 <= i < |ts| => ts[(i + |ts| - s) % |ts|])
  }

  function RotateRight(ts: seq<Trit>, s: nat): (r: seq<Trit>)
    requires s < |ts|
    ensures |r| == |ts|
  {
    seq(|ts|, i requires 0 <= i < |ts| => ts[(i + s) % |ts|])
  }

  /** A numeral as a low part and a high part, with the low part below half a unit. */
  lemma Halves(ts: seq<Trit>, s: nat) returns (v: int, lo: int, q: int, p: int)
    requires s <= |ts|
    ensures v == Val(ts) && lo == Val(ts[..s]) && q == Val(ts[s..]) && p == Pow3(s)
    ensures p > 0 && v == lo + p * q && -p < 2 * lo < p
  {
    ValSplit(ts, s);
    ValBound(ts[..s]);
    v, lo, q, p := Val(ts), Val(ts[..s]), Val(ts[s..]), Pow3(s);
  }

  // Left shift

  lemma ShiftLeftParts(ts: seq<Trit>, s: nat)
    requires s <= |ts|
    ensures ShiftLeft(ts, s) == Repeat(0, s) + ts[..|ts| - s]
  {
  }

  lemma ScaleSplit(p: int, q: int, lo: int, hi: int)
    ensures p * (lo + q * hi) == p * lo + hi * (p * q)
  {
    MulDistrib(lo, q * hi, p);
    MulAssoc(p, q, hi);
  }

  lemma ScaleCong(v: int, w: int, lo: int, hi: int, p: int, q: int, m: int)
    requires m > 0 && m == p * q && v == lo + q * hi && w == p * lo
    ensures Cong(p * v, w, m)
  {
    ScaleSplit(p, q, lo, hi);
    CongIntro(p * v, w, m, hi);
  }

  /** Left shift multiplies by 3^s modulo 3^n. */
  lemma ShiftLeftScales(ts: seq<Trit>, s: nat)
    requires s <= |ts|
    ensures ShiftLeft(ts, s) == Expand(Pow3(s) * Val(ts), |ts|)
  {
    hide *;
    var k := |ts| - s;
    var v, lo, hi, q := Halves(ts, k);
    ShiftLeftVal(ts, s);
    Pow3Add(s, k);
    ScaleCong(v, Val(ShiftLeft(ts, s)), lo, hi, Pow3(s), q, Pow3(|ts|));
    ExpandIs(Pow3(s) * v, ShiftLeft(ts, s));
  }

  lemma ShiftLeftVal(ts: seq<Trit>, s: nat)
    requires s <= |ts|
    ensures Val(ShiftLeft(ts, s)) == Pow3(s) * Val(ts[..|ts| - s])
  {
    ShiftLeftParts(ts, s);
    ValAppend(Repeat(0, s), ts[..|ts| - s]);
    ZeroVal(s);
  }

  /** The top s+1 trits are all the same. */
  predicate TopEqual(ts: seq<Trit>, s: nat)
    requires s < |ts|
  {
    forall i :: |ts| - 1 - s <= i < |ts| ==> ts[i] == ts[|ts| - 1]
  }

  /** There and back: the low trits survive, the rest repeat the one that was on top. */
  lemma ShiftLeftRightAt(ts: seq<Trit>, s: nat, i: nat)
    requires s < |ts| && i < |ts|
    ensures ShiftRight(ShiftLeft(ts, s), s)[i]
         == if i < |ts| - s then ts[i] else ts[|ts| - 1 - s]
  {
  }

  /** Shifting left and back loses nothing exactly when the top s+1 trits agree. */
  lemma ShiftLeftRight(ts: seq<Trit>, s: nat)
    requires s < |ts|
    ensures ShiftRight(ShiftLeft(ts, s), s) == ts <==> TopEqual(ts, s)
  {
    var r := ShiftRight(ShiftLeft(ts, s), s);
    forall i: nat | i < |ts| ensures r[i] == if i < |ts| - s then ts[i] else ts[|ts| - 1 - s] {
      ShiftLeftRightAt(ts, s, i);
    }
    TopRepeats(ts, s, r);
  }

  lemma TopRepeats(ts: seq<Trit>, s: nat, r: seq<Trit>)
    requires s < |ts| == |r|
    requires forall i: nat :: i < |ts| ==> r[i] == if i < |ts| - s then ts[i] else ts[|ts| - 1 - s]
    ensures r == ts <==> TopEqual(ts, s)
  {
    if r == ts {
      assert r[|ts| - 1] == ts[|ts| - 1 - s];
    }
  }

  // Right shift

  /** The weight of the s top positions taken together. */
  function TopWeight(n: nat, s: nat): int
    requires s <= n
  {
    (Pow3(n) - Pow3(n - s)) / 2
  }

  lemma TopWeightParts(n: nat, s: nat)
    requires s <= n
    ensures TopWeight(n, s) == Pow3(n - s) * MaxAbs(s)
  {
    Pow3Add(n - s, s);
    HalfProduct(Pow3(n - s), Pow3(s), MaxAbs(s), Pow3(n));
  }

  lemma TopWeightSign(n: nat, s: nat)
    requires s <= n
    ensures TopWeight(n, s) == 0 <==> s == 0
  {
    TopWeightParts(n, s);
    if s > 0 {
      Pow3Big(s);
      MulAtLeast(MaxAbs(s), Pow3(n - s));
    }
  }

  lemma HalfProduct(p: int, q: int, m: int, n: int)
    requires q == 2 * m + 1 && n == p * q
    ensures (n - p) / 2 == p * m
  {
    MulDistrib(2 * m, 1, p);
    MulAssoc(p, 2, m);
    MulAssoc(2, p, m);
  }

  lemma MulSwap(p: int, m: int, top: int, x: int, f: int)
    requires x == top * m && f == p * m
    ensures p * x == top * f
  {
    MulAssoc(p, top, m);
    MulAssoc(top, p, m);
  }

  lemma ShiftRightParts(ts: seq<Trit>, s: nat)
    requires s < |ts|
    ensures ShiftRight(ts, s) == ts[s..] + Repeat(ts[|ts| - 1], s)
    ensures Val(ShiftRight(ts, s))
         == Val(ts[s..]) + Pow3(|ts| - s) * Val(Repeat(ts[|ts| - 1], s))
  {
    assert ShiftRight(ts, s) == ts[s..] + Repeat(ts[|ts| - 1], s);
    ValAppend(ts[s..], Repeat(ts[|ts| - 1], s));
  }

  /** The exact value of a right shift: the kept trits, plus what the copies of the top
      trit add. */
  lemma ShiftRightVal(ts: seq<Trit>, s: nat)
    requires s < |ts|
    ensures Val(ShiftRight(ts, s)) == Val(ts[s..]) + ts[|ts| - 1] * TopWeight(|ts|, s)
  {
    hide *;
    var top := ts[|ts| - 1];
    ShiftRightParts(ts, s);
    RepeatVal(top, s);
    TopWeightParts(|ts|, s);
    MulSwap(Pow3(|ts| - s), MaxAbs(s), top, Val(Repeat(top, s)), TopWeight(|ts|, s));
  }

  lemma NearestArith(v: int, lo: int, p: int, q: int, m: int)
    requires v == lo + p * q && -p < 2 * lo < p && m != q
    ensures Abs(v - p * q) < Abs(v - p * m)
  {
    MulDistrib(q, m, p);
    MulAtLeast(q - m, p);
  }

  /** Keeping the trits from s up divides by 3^s to the nearest integer, with no ties. */
  lemma KeptNearest(ts: seq<Trit>, s: nat, m: int)
    requires s <= |ts| && m != Val(ts[s..])
    ensures Abs(Val(ts) - Pow3(s) * Val(ts[s..])) < Abs(Val(ts) - Pow3(s) * m)
  {
    hide *;
    var v, lo, q, p := Halves(ts, s);
    NearestArith(v, lo, p, q, m);
  }

  // Rotation

  lemma SmallMod(x: int, n: int)
    requires 0 <= x < 2 * n
    ensures x % n == if x < n then x else x - n
  {
    if x >= n {
      WrapOnce(x - n, n);
    } else {
      BelowMod(x, n);
    }
  }

  lemma BelowMod(x: int, n: int)
    requires 0 <= x < n
    ensures x % n == x && x / n == 0
  {
  }

  lemma WrapOnce(x: int, n: int)
    requires 0 <= x < n
    ensures (x + n) % n == x
  {
    var q, r := (x + n) / n, (x + n) % n;
    assert x + n == n * q + r;
    assert (q - 1) * n == x - r;
    SmallMultiple(x - r, n, q - 1);
  }

  lemma RotateLeftParts(ts: seq<Trit>, s: nat)
    requires s < |ts|
    ensures RotateLeft(ts, s) == ts[|ts| - s..] + ts[..|ts| - s]
  {
    var n := |ts|;
    forall i | 0 <= i < n ensures RotateLeft(ts, s)[i] == (ts[n - s..] + ts[..n - s])[i] {
      SmallMod(i + n - s, n);
    }
  }

  lemma RotateCong(v: int, w: int, lo: int, hi: int, p: int, q: int, n: int)
    requires n > 1 && n == p * q && v == lo + q * hi && w == hi + p * lo
    ensures Cong(w, p * v, n - 1)
  {
    ScaleSplit(p, q, lo, hi);
    MulDistrib(n, 1, -hi);
    CongIntro(w, p * v, n - 1, -hi);
  }

  lemma RotateLeftVal(ts: seq<Trit>, s: nat)
    requires s < |ts|
    ensures Val(RotateLeft(ts, s))
         == Val(ts[|ts| - s..]) + Pow3(s) * Val(ts[..|ts| - s])
  {
    RotateLeftParts(ts, s);
    ValAppend(ts[|ts| - s..], ts[..|ts| - s]);
  }

  /** Rotation multiplies by 3^s modulo 3^n - 1. */
  lemma RotateLeftScales(ts: seq<Trit>, s: nat)
    requires s < |ts|
    ensures Pow3(|ts|) > 1 && Cong(Val(RotateLeft(ts, s)), Pow3(s) * Val(ts), Pow3(|ts|) - 1)
  {
    hide *;
    var k := |ts| - s;
    var v, lo, hi, q := Halves(ts, k);
    RotateLeftVal(ts, s);
    Pow3Add(s, k);
    Pow3Big(|ts|);
    RotateCong(v, Val(RotateLeft(ts, s)), lo, hi, Pow3(s), q, Pow3(|ts|));
  }

  /** 3^n is 1 modulo 3^n - 1, so only s modulo n matters. */
  lemma {:induction false} Pow3Cyclic(s: nat, n: nat)
    requires n > 0
    ensures Pow3(n) > 1 && Cong(Pow3(s), Pow3(s % n), Pow3(n) - 1)
    decreases s
  {
    var m := Pow3(n) - 1;
    if s < n {
      BelowMod(s, n);
      CongIntro(Pow3(s), Pow3(s % n), m, 0);
    } else {
      Pow3Cyclic(s - n, n);
      Pow3Add(n, s - n);
      MulDistrib(m, 1, Pow3(s - n));
      CongIntro(Pow3(s), Pow3(s - n), m, Pow3(s - n));
      assert s % n == (s - n) % n by {
        ModMinus(s, n);
      }
      CongTrans(Pow3(s), Pow3(s - n), Pow3(s % n), m);
    }
  }

  lemma ModMinus(s: nat, n: nat)
    requires 0 < n <= s
    ensures s % n == (s - n) % n
  {
    var q, r := (s - n) / n, (s - n) % n;
    assert s - n == n * q + r;
    var q', r' := s / n, s % n;
    assert s == n * q' + r';
    MulDistrib(q + 1, q', n);
    assert r' - r == (q + 1 - q') * n;
    SmallMultiple(r' - r, n, q + 1 - q');
  }

  /** Integers a multiple of n apart have the same remainder, negative ones included. */
  lemma ModEqual(x: int, y: int, j: int, n: nat)
    requires n > 0 && x - y == j * n
    ensures x % n == y % n
  {
    var q, r, q', r' := x / n, x % n, y / n, y % n;
    assert x == n * q + r && y == n * q' + r';
    MulDistrib(j, q, n);
    MulDistrib(j - q, -q', n);
    MulNegate(q', n);
    assert r - r' == (j - q + q') * n;
    SmallMultiple(r - r', n, j - q + q');
  }

  /** The trit a left rotation moves to position i, counts of n and more included. */
  lemma RotateSource(i: nat, count: nat, n: nat)
    requires i < n
    ensures (i + n - count % n) % n == (i - count) % n
  {
    DivMod(count, n);
    MulDistrib(count / n, 1, n);
    ModEqual(i + n - count % n, i - count, count / n + 1, n);
  }

  lemma RotateTarget(i: nat, count: nat, n: nat)
    requires i < n
    ensures (i + count % n) % n == (i + count) % n
  {
    DivMod(count, n);
    MulNegate(count / n, n);
    ModEqual(i + count % n, i + count, -(count / n), n);
  }

  /** Where n divides 2^32, reducing an int modulo 2^32 first does not change its remainder. */
  lemma CountRemainder(x: int, k: int, n: nat)
    requires n > 0 && 0x1_0000_0000 % n == 0
    ensures (x + k % 0x1_0000_0000) % n == (x + k) % n && (x - k % 0x1_0000_0000) % n == (x - k) % n
  {
    var m, q := 0x1_0000_0000 / n, k / 0x1_0000_0000;
    assert 0x1_0000_0000 == m * n by { DivMod(0x1_0000_0000, n); }
    assert k == q * 0x1_0000_0000 + k % 0x1_0000_0000;
    MulAssoc(q, m, n);
    MulNegate(q * m, n);
    ModEqual(x + k % 0x1_0000_0000, x + k, -(q * m), n);
    ModEqual(x - k % 0x1_0000_0000, x - k, q * m, n);
  }

  lemma CongScaled(r: int, p: int, q: int, v: int, m: int)
    requires m > 0 && Cong(r, p * v, m) && Cong(q, p, m)
    ensures Cong(r, q * v, m)
  {
    CongMul(q, p, v, m);
    CongSym(v * q, v * p, m);
    CongTrans(r, p * v, q * v, m);
  }

  lemma ModSum(s: nat, t: nat, n: nat)
    requires n > 0
    ensures (s + t) % n == (s % n + t % n) % n
  {
    DivMod(s, n);
    DivMod(t, n);
    SumShift(s, t, s / n, t / n, s % n, t % n, n);
  }

  lemma SumShift(s: nat, t: nat, i: nat, j: nat, x: nat, y: nat, n: nat)
    requires n > 0 && s == i * n + x && t == j * n + y
    ensures (s + t) % n == (x + y) % n
  {
    MulDistrib(i, j, n);
    MultipleShift(x + y, i + j, n);
  }

  lemma {:induction false} MultipleShift(x: nat, k: nat, n: nat)
    requires n > 0
    ensures (x + k * n) % n == x % n
    decreases k
  {
    if k > 0 {
      MulDistrib(k, 1, n);
      MulAtLeast(k, n);
      ModMinus(x + k * n, n);
      MultipleShift(x, k - 1, n);
    }
  }

  /** The counts of k and -k, converted to unsigned, add up to a multiple of n. */
  lemma CountsCancel(k: int, n: nat)
    requires n > 0 && 0x1_0000_0000 % n == 0
    ensures ((-k) % 0x1_0000_0000) % n == (n - (k % 0x1_0000_0000) % n) % n
  {
    var m := 0x1_0000_0000;
    var a, b := k % m, (-k) % m;
    assert a + b == 0 || a + b == m;
    BelowMod(0, n);
    ModSum(a, b, n);
    var x, y := a % n, b % n;
    SmallMod(x + y, n);
    SmallMod(n - x, n);
  }

  /** The same for any rotation count. */
  lemma RotateAnyScales(ts: seq<Trit>, count: nat)
    requires ts != []
    ensures Pow3(|ts|) > 1
    ensures Cong(Val(RotateLeft(ts, count % |ts|)), Pow3(count) * Val(ts), Pow3(|ts|) - 1)
  {
    hide *;
    var n, s := |ts|, count % |ts|;
    RotateLeftScales(ts, s);
    Pow3Cyclic(count, n);
    CongScaled(Val(RotateLeft(ts, s)), Pow3(s), Pow3(count), Val(ts), Pow3(n) - 1);
  }

  /** Rotations compose by adding their counts modulo n. */
  lemma RotateCompose(ts: seq<Trit>, s: nat, t: nat)
    requires s < |ts| && t < |ts|
    ensures RotateLeft(RotateLeft(ts, s), t) == RotateLeft(ts, (s + t) % |ts|)
  {
    var n, u := |ts|, (s + t) % |ts|;
    SmallMod(s + t, n);
    forall i | 0 <= i < n
      ensures RotateLeft(RotateLeft(ts, s), t)[i] == RotateLeft(ts, u)[i]
    {
      SmallMod(i + n - t, n);
      SmallMod((i + n - t) % n + n - s, n);
      SmallMod(i + n - u, n);
    }
  }

  lemma RotateRightIsLeft(ts: seq<Trit>, s: nat)
    requires s < |ts|
    ensures RotateRight(ts, s) == RotateLeft(ts, (|ts| - s) % |ts|)
  {
    var n := |ts|;
    SmallMod(n - s, n);
    forall i | 0 <= i < n
      ensures RotateRight(ts, s)[i] == RotateLeft(ts, (n - s) % n)[i]
    {
      SmallMod(i + s, n);
      SmallMod(i + n - (n - s) % n, n);
    }
  }

  lemma RotateNone(ts: seq<Trit>)
    requires ts != []
    ensures RotateLeft(ts, 0) == ts
  {
    forall i | 0 <= i < |ts| ensures RotateLeft(ts, 0)[i] == ts[i] {
      SmallMod(i + |ts|, |ts|);
    }
  }

  lemma RotateInverse(ts: seq<Trit>, s: nat)
    requires s < |ts|
    ensures RotateRight(RotateLeft(ts, s), s) == ts && RotateLeft(RotateRight(ts, s), s) == ts
  {
    hide *;
    var n, t := |ts|, (|ts| - s) % |ts|;
    SmallMod(n - s, n);
    SmallMod(s + t, n);
    RotateRightIsLeft(ts, s);
    RotateRightIsLeft(RotateLeft(ts, s), s);
    RotateCompose(ts, s, t);
    RotateCompose(ts, t, s);
    RotateNone(ts);
  }

  // Rounding

  lemma RoundArith(v: int, lo: int, q: int, p: int)
    requires p > 0 && v == lo + p * q && -p < lo < p
    ensures var r := TruncDiv(v, p);
      && Abs(r - q) <= 1
      && (r == q <==> lo == 0 || Sgn(lo) == Sgn(v))
      && (r != q ==> r == q - Sgn(v))
  {
    if lo == 0 || Sgn(lo) == Sgn(v) {
      TruncUnique(v, p, q, lo);
    } else {
      MulAtLeast(q, p);
      MulDistrib(q, Sgn(v), p);
      TruncUnique(v, p, q - Sgn(v), lo + Sgn(v) * p);
    }
  }

  /** How truncating division by 3^d compares with dropping d trits. */
  lemma RoundAgainstDrop(ts: seq<Trit>, d: nat)
    requires d <= |ts|
    ensures var lo, q, r := Val(ts[..d]), Val(ts[d..]), TruncDiv(Val(ts), Pow3(d));
      && Abs(r - q) <= 1
      && (r == q <==> lo == 0 || Sgn(lo) == Sgn(Val(ts)))
      && (r != q ==> r == q - Sgn(Val(ts)))
  {
    hide *;
    var v, lo, q, p := Halves(ts, d);
    RoundArith(v, lo, q, p);
  }

  lemma TwiceArith(v: int, q: int, r: int, q2: int, r2: int, b: int, c: int)
    requires v == q * b + r && q == q2 * c + r2 && 0 < b && -b < r < b && -c < r2 < c
    ensures v == q2 * (b * c) + (r + r2 * b)
    ensures -(b * c) < r + r2 * b < b * c
  {
    MulDistrib(q2 * c, r2, b);
    MulAssoc(q2, c, b);
    MulDistrib(c, 1, b);
    MulMono(r2, c - 1, b);
    MulMono(-(c - 1), r2, b);
    MulNegate(c - 1, b);
  }

  lemma MulMono(x: int, y: int, m: int)
    requires x <= y && 0 <= m
    ensures x * m <= y * m
  {
  }

  lemma TwiceSign(v: int, q: int, r: int, r2: int, b: int)
    requires v == q * b + r && -b < r < b && (r == 0 || Sgn(r) == Sgn(v))
    requires r2 == 0 || Sgn(r2) == Sgn(q)
    ensures r + r2 * b == 0 || Sgn(r + r2 * b) == Sgn(v)
  {
    MulAtLeast(q, b);
    MulAtLeast(r2, b);
  }

  /** Truncating twice is truncating once. */
  lemma TruncTwice(v: int, b: int, c: int)
    requires b > 0 && c > 0
    ensures b * c > 0 && TruncDiv(TruncDiv(v, b), c) == TruncDiv(v, b * c)
  {
    var q, r := TruncDiv(v, b), TruncMod(v, b);
    var q2, r2 := TruncDiv(q, c), TruncMod(q, c);
    TruncDivMod(v, b);
    TruncDivMod(q, c);
    MulAtLeast(c, b);
    TwiceArith(v, q, r, q2, r2, b, c);
    TwiceSign(v, q, r, r2, b);
    TruncUnique(v, b * c, q2, r + r2 * b);
  }
}
