/** C integer arithmetic: the 64-bit signed range and division that truncates toward zero. */
module CArith {
  const INT64_MAX: int := 0x7fff_ffff_ffff_ffff
  const INT64_MIN: int := -0x8000_0000_0000_0000

  /** `int64_t`. Every operation on this type carries the obligation that its exact
      result is in range, so a method that verifies has no signed overflow. */
  newtype int64 = x: int | -0x8000_0000_0000_0000 <= x <= 0x7fff_ffff_ffff_ffff

  predicate Fits64(x: int) {
    INT64_MIN <= x <= INT64_MAX
  }

  function Abs(x: int): (r: int)
    ensures r >= 0
  {
    if x < 0 then -x else x
  }

  function Sgn(x: int): int {
    if x < 0 then -1 else if x == 0 then 0 else 1
  }

  /** C's `/` on signed integers (section 6.5.5 of ISO/IEC 9899:2011). */
  function TruncDiv(a: int, b: int): int
    requires b != 0
  {
    if (a < 0) == (b < 0) then Abs(a) / Abs(b) else -(Abs(a) / Abs(b))
  }

  /** C's `%` on signed integers. */
  function TruncMod(a: int, b: int): int
    requires b != 0
  {
    if a < 0 then -(Abs(a) % Abs(b)) else Abs(a) % Abs(b)
  }

  // Products

  /** A product by m stays away from 0 by at least m. */
  lemma MulAtLeast(k: int, m: int)
    requires m > 0
    ensures k >= 1 ==> k * m >= m
    ensures k <= -1 ==> k * m <= -m
  {
  }

  lemma MulDistrib(x: int, y: int, m: int)
    ensures (x + y) * m == x * m + y * m
    ensures (x - y) * m == x * m - y * m
  {
  }

  lemma MulAssoc(x: int, y: int, z: int)
    ensures x * (y * z) == (x * y) * z
  {
  }

  lemma MulComm(x: int, y: int)
    ensures x * y == y * x
  {
  }

  lemma MulNegate(x: int, y: int)
    ensures x * y == (-x) * (-y)
  {
  }

  lemma SmallMultiple(d: int, m: int, k: int)
    requires m > 0 && d == k * m && -m < d < m
    ensures d == 0 && k == 0
  {
    MulAtLeast(k, m);
  }

  // Truncating division

  /** The quotient and remainder of C are the only pair with the three properties of 6.5.5. */
  lemma {:induction false} TruncDivMod(a: int, b: int)
    requires b != 0
    ensures a == TruncDiv(a, b) * b + TruncMod(a, b)
    ensures Abs(TruncMod(a, b)) < Abs(b)
    ensures TruncMod(a, b) == 0 || Sgn(TruncMod(a, b)) == Sgn(a)
    ensures Abs(TruncDiv(a, b)) <= Abs(a)
  {
    var q, r := Abs(a) / Abs(b), Abs(a) % Abs(b);
    DivMod(Abs(a), Abs(b));
    MulNegate(q, b);
    MulNegate(-q, b);
  }

  /** The product of quotient and divisor does not pass the dividend. */
  lemma TruncProduct(a: int, b: int)
    requires b != 0
    ensures Abs(TruncDiv(a, b) * b) <= Abs(a)
  {
    TruncDivMod(a, b);
    RemainderBelow(a, b);
  }

  lemma RemainderBelow(a: int, b: int)
    requires b != 0
    ensures Abs(TruncMod(a, b)) <= Abs(a)
  {
    DivMod(Abs(a), Abs(b));
    MulAtLeast(Abs(a) / Abs(b), Abs(b));
  }

  lemma DivMod(x: int, y: int)
    requires x >= 0 && y > 0
    ensures x == (x / y) * y + x % y && 0 <= x % y < y && 0 <= x / y <= x
  {
    MulAtLeast(x / y, y);
    QuotientBelow(x / y, y);
  }

  lemma QuotientBelow(q: int, y: int)
    requires y > 0
    ensures 0 <= q ==> q <= q * y
  {
  }

  lemma {:induction false} TruncUnique(a: int, b: int, q: int, r: int)
    requires b != 0
    requires a == q * b + r && Abs(r) < Abs(b) && (r == 0 || Sgn(r) == Sgn(a))
    ensures q == TruncDiv(a, b) && r == TruncMod(a, b)
  {
    TruncDivMod(a, b);
    var q', r' := TruncDiv(a, b), TruncMod(a, b);
    MulDistrib(q, q', b);
    assert r' - r == (q - q') * b;
    assert -Abs(b) < r' - r < Abs(b) by {
      RemainderGap(a, r, r', Abs(b));
    }
    if b > 0 {
      SmallMultiple(r' - r, b, q - q');
    } else {
      MulNegate(q - q', b);
      SmallMultiple(r' - r, -b, q' - q);
    }
  }

  lemma RemainderGap(a: int, r: int, s: int, m: int)
    requires Abs(r) < m && (r == 0 || Sgn(r) == Sgn(a))
    requires Abs(s) < m && (s == 0 || Sgn(s) == Sgn(a))
    ensures -m < s - r < m
  {
  }

  /** Conversion to `int64_t` with two's complement wrap-around. */
  function Wrap64(x: int): (r: int)
    ensures Fits64(r)
  {
    (x + 0x8000_0000_0000_0000) % 0x1_0000_0000_0000_0000 - 0x8000_0000_0000_0000
  }

  lemma WrapIdentity(x: int)
    ensures Wrap64(x) == x <==> Fits64(x)
  {
  }

  lemma WrapShift(x: int, k: int)
    ensures Wrap64(x + 0x1_0000_0000_0000_0000 * k) == Wrap64(x)
  {
  }

  lemma WrapCount(x: int) returns (k: int)
    ensures Wrap64(x) == x - 0x1_0000_0000_0000_0000 * k
  {
    k := (x + 0x8000_0000_0000_0000) / 0x1_0000_0000_0000_0000;
  }

  /** Wrapping commutes with sums and products: inner wraps can be dropped. */
  lemma WrapSumOfProduct(a: int, t: int, p: int)
    ensures Wrap64(Wrap64(a) + Wrap64(t * Wrap64(p))) == Wrap64(a + t * p)
  {
    var i := WrapCount(a);
    var j := WrapCount(p);
    var l := WrapCount(t * Wrap64(p));
    var m := 0x1_0000_0000_0000_0000;
    MulDistrib(p, m * j, t);
    assert t * Wrap64(p) == t * p - m * (t * j) by {
      MulAssoc(t, m, j);
      MulAssoc(m, t, j);
    }
    WrapShift(a + t * p, -(i + t * j + l));
  }

  lemma WrapTriple(p: int)
    ensures Wrap64(3 * Wrap64(p)) == Wrap64(3 * p)
  {
    var j := WrapCount(p);
    WrapShift(3 * p, -3 * j);
  }

  // Congruence

  predicate Cong(a: int, b: int, m: int)
    requires m > 0
  {
    (a - b) % m == 0
  }

  lemma CongIntro(a: int, b: int, m: int, k: int)
    requires m > 0 && a - b == k * m
    ensures Cong(a, b, m)
  {
    MultipleMod(k, m);
  }

  lemma {:induction false} MultipleMod(k: int, m: int)
    requires m > 0
    ensures (k * m) % m == 0
  {
    var q, r := (k * m) / m, (k * m) % m;
    assert k * m == m * q + r;
    MulDistrib(k, q, m);
    MulAtLeast(k - q, m);
  }

  lemma CongElim(a: int, b: int, m: int) returns (k: int)
    requires m > 0 && Cong(a, b, m)
    ensures a - b == k * m
  {
    k := (a - b) / m;
  }

  lemma CongTrans(a: int, b: int, c: int, m: int)
    requires m > 0 && Cong(a, b, m) && Cong(b, c, m)
    ensures Cong(a, c, m)
  {
    var j := CongElim(a, b, m);
    var k := CongElim(b, c, m);
    MulDistrib(j, k, m);
    CongIntro(a, c, m, j + k);
  }

  lemma CongSym(a: int, b: int, m: int)
    requires m > 0 && Cong(a, b, m)
    ensures Cong(b, a, m)
  {
    var k := CongElim(a, b, m);
    assert (-k) * m == -(k * m);
    CongIntro(b, a, m, -k);
  }

  lemma CongAdd(a: int, b: int, c: int, d: int, m: int)
    requires m > 0 && Cong(a, b, m) && Cong(c, d, m)
    ensures Cong(a + c, b + d, m)
  {
    var j := CongElim(a, b, m);
    var k := CongElim(c, d, m);
    MulDistrib(j, k, m);
    CongIntro(a + c, b + d, m, j + k);
  }

  lemma CongMul(a: int, b: int, c: int, m: int)
    requires m > 0 && Cong(a, b, m)
    ensures Cong(c * a, c * b, m)
  {
    var k := CongElim(a, b, m);
    MulDistrib(a, b, c);
    MulAssoc(c, k, m);
    CongIntro(c * a, c * b, m, c * k);
  }
}
