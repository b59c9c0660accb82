/** What the runtime's operations on packed words of n trits compute. */
module PackedOps {
  import opened CArith
  import opened Trits
  import opened TritLogic
  import opened TritShift
  import opened Words

  function Encode(v: int, n: nat): nat {
    Pack(Expand(v, n))
  }

  function Decode(w: nat, n: nat): int {
    Val(TritsOf(w, n))
  }

  // Arithmetic goes through decode and encode.

  function Add(a: nat, b: nat, n: nat): nat {
    Encode(Decode(a, n) + Decode(b, n), n)
  }

  function Sub(a: nat, b: nat, n: nat): nat {
    Encode(Decode(a, n) - Decode(b, n), n)
  }

  function Mul(a: nat, b: nat, n: nat): nat {
    Encode(Decode(a, n) * Decode(b, n), n)
  }

  function Neg(a: nat, n: nat): nat {
    Encode(-Decode(a, n), n)
  }

  function Div(a: nat, b: nat, n: nat): nat {
    var d := Decode(b, n);
    Encode(if d == 0 then 0 else TruncDiv(Decode(a, n), d), n)
  }

  function Mod(a: nat, b: nat, n: nat): nat {
    var d := Decode(b, n);
    Encode(if d == 0 then 0 else TruncMod(Decode(a, n), d), n)
  }

  function MulAdd(a: nat, b: nat, c: nat, n: nat): nat {
    Encode(Decode(a, n) * Decode(b, n) + Decode(c, n), n)
  }

  /** Dropping every trit returns the literal word 0. */
  function Round(w: nat, n: nat, drop: nat): nat {
    if drop >= n then 0 else Encode(TruncDiv(Decode(w, n), Pow3(drop)), n)
  }

  function Cmp(a: nat, b: nat, n: nat): int {
    Sgn(Decode(a, n) - Decode(b, n))
  }

  /** The target for the sign of a word. */
  function BySign<T>(sign: int, neg: T, zero: T, pos: T): T {
    if sign < 0 then neg else if sign > 0 then pos else zero
  }

  // Logic, shifts and rotations work trit by trit.

  function Bitwise(a: nat, b: nat, n: nat, op: int): nat {
    Pack(Tritwise(TritsOf(a, n), TritsOf(b, n), op))
  }

  function Not(a: nat, n: nat): nat {
    Pack(Negate(TritsOf(a, n)))
  }

  function Maj(a: nat, b: nat, c: nat, n: nat): nat {
    Pack(Majority(TritsOf(a, n), TritsOf(b, n), TritsOf(c, n)))
  }

  function ShlWord(w: nat, n: nat, count: nat): nat {
    if n == 0 then w else Pack(ShiftLeft(TritsOf(w, n), count % n))
  }

  function ShrWord(w: nat, n: nat, count: nat): nat {
    if n == 0 then w else Pack(ShiftRight(TritsOf(w, n), count % n))
  }

  function RolWord(w: nat, n: nat, count: nat): nat {
    if n == 0 then w else Pack(RotateLeft(TritsOf(w, n), count % n))
  }

  function RorWord(w: nat, n: nat, count: nat): nat {
    if n == 0 then w else Pack(RotateRight(TritsOf(w, n), count % n))
  }

  /** The conversion of an `int` shift count to `unsigned`. */
  function Count(shift: int): nat {
    shift % 0x1_0000_0000
  }
}
