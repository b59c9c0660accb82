/** The order of numerals is decided from the most significant trit down. */
module TritOrder {
  import opened CArith
  import opened Trits
  import opened Words
  import opened BitOps

  /** The first non-zero trit from the top, or 0. */
  function LeadingTrit(ts: seq<Trit>): Trit {
    if ts == [] then 0
    else if ts[|ts| - 1] != 0 then ts[|ts| - 1]
    else LeadingTrit(ts[..|ts| - 1])
  }

  /** Lexicographic comparison from the top: -1, 0 or 1. */
  function LexCompare(a: seq<Trit>, b: seq<Trit>): int
    requires |a| == |b|
  {
    if a == [] then 0
    else
      var m := |a| - 1;
      if a[m] < b[m] then -1 else if a[m] > b[m] then 1
      else LexCompare(a[..m], b[..m])
  }

  lemma TritTimes(p: int, t: Trit)
    ensures p * t == if t == 0 then 0 else if t == 1 then p else -p
  {
  }

  lemma {:induction false} LeadingTritIsSign(ts: seq<Trit>)
    ensures LeadingTrit(ts) == Sgn(Val(ts))
  {
    if ts != [] {
      var m := |ts| - 1;
      ValTop(ts);
      ValBound(ts[..m]);
      TritTimes(Pow3(m), ts[m]);
      if ts[m] == 0 {
        LeadingTritIsSign(ts[..m]);
      }
    }
  }

  lemma {:induction false} LexCompareIsOrder(a: seq<Trit>, b: seq<Trit>)
    requires |a| == |b|
    ensures LexCompare(a, b) == Sgn(Val(a) - Val(b))
  {
    if a != [] {
      var m := |a| - 1;
      ValTop(a);
      ValTop(b);
      ValBound(a[..m]);
      ValBound(b[..m]);
      TritTimes(Pow3(m), a[m]);
      TritTimes(Pow3(m), b[m]);
      if a[m] == b[m] {
        LexCompareIsOrder(a[..m], b[..m]);
      }
    }
  }

  lemma {:induction false} PackTop(ts: seq<Trit>)
    requires ts != []
    ensures Pack(ts) == Pack(ts[..|ts| - 1]) + Pow2(2 * |ts| - 2) * TritToBits(ts[|ts| - 1])
  {
    var m := |ts| - 1;
    if m == 0 {
      assert ts[..m] == [] && ts[1..] == [];
    } else {
      var q, b := Pow2(2 * m - 2), TritToBits(ts[m]);
      PackTop(ts[1..]);
      assert ts[1..][..m - 1] == ts[..m][1..];
      assert Pow2(2 * m) == 2 * Pow2(2 * m - 1) == 4 * q;
      MulAssoc(4, q, b);
    }
  }

  /** Packed words compare as unsigned integers the way their values compare. */
  lemma {:induction false} PackOrder(a: seq<Trit>, b: seq<Trit>)
    requires |a| == |b|
    ensures Sgn(Pack(a) - Pack(b)) == LexCompare(a, b)
  {
    if a != [] {
      var m := |a| - 1;
      PackTop(a);
      PackTop(b);
      PackBound(a[..m]);
      PackBound(b[..m]);
      var p := Pow2(2 * m);
      assert p * 0 == 0 && p * 1 == p && p * 2 == p + p;
      if a[m] == b[m] {
        PackOrder(a[..m], b[..m]);
      }
    }
  }
}
