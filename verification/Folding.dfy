/** Constant folding of assignments whose operands are 32-trit words. */
module Folding {
  import opened Wrappers
  import opened CArith
  import opened BitOps
  import opened Trits
  import opened TritOrder
  import opened Words
  import opened WordLaws
  import opened Constants
  import S = TritShift
  import Ops = PackedOps

  datatype Code = Plus | Minus | Mult | TruncDivide | TruncModulo | Negate | Copy | OtherCode

  datatype Operand = Cst(value: int) | Var(id: nat)

  /** The right-hand side of an assignment; unary codes have no second operand. */
  datatype Rhs = Rhs(code: Code, arg1: Operand, arg2: Option<Operand>)

  predicate TypedOperand(a: Operand) {
    a.Cst? ==> FitsUnsigned64(a.value)
  }

  predicate Typed(r: Rhs) {
    TypedOperand(r.arg1) && (r.arg2.Some? ==> TypedOperand(r.arg2.value))
  }

  // What an assignment means

  /** A literal that can be packed names its logical value. */
  function Packed(a: Operand): Operand {
    if a.Cst? && PackConstant(a.value, T32).Some? then Cst(PackConstant(a.value, T32).value) else a
  }

  /** The word an operand stands for at run time. */
  function Word(a: Operand, env: nat -> nat): nat {
    match a
    case Cst(v) => if v < 0 then 0 else v
    case Var(x) => env(x)
  }

  predicate Foldable(r: Rhs) {
    r.code.Negate? || (!r.code.Copy? && !r.code.OtherCode? && r.arg2.Some?)
  }

  /** The runtime helper for the code, on the packed operands. */
  function Helper(r: Rhs, env: nat -> nat): nat
    requires Foldable(r)
  {
    var a := Word(Packed(r.arg1), env);
    var b := if r.arg2.Some? then Word(Packed(r.arg2.value), env) else 0;
    match r.code
    case Plus => Ops.Add(a, b, 32)
    case Minus => Ops.Sub(a, b, 32)
    case Mult => Ops.Mul(a, b, 32)
    case TruncDivide => Ops.Div(a, b, 32)
    case TruncModulo => Ops.Mod(a, b, 32)
    case _ => Ops.Neg(a, 32)
  }

  // What the pass does

  function Logical(a: Operand): Option<int> {
    match Packed(a)
    case Cst(v) => UnpackConstant(v, T32)
    case Var(_) => None
  }

  /** The logical result when the operands are constant. */
  function ConstantResult(r: Rhs): Option<int>
    requires Foldable(r)
  {
    var a := Logical(r.arg1);
    if a.None? then None
    else if r.code.Negate? then Some(-a.value)
    else
      var b := Logical(r.arg2.value);
      if b.None? then None
      else match r.code
        case Plus => Some(a.value + b.value)
        case Minus => Some(a.value - b.value)
        case Mult => Some(a.value * b.value)
        case TruncDivide => Some(if b.value == 0 then 0 else TruncDiv(a.value, b.value))
        case _ => Some(if b.value == 0 then 0 else TruncMod(a.value, b.value))
  }

  /** The operand an identity leaves: a + 0, a - 0, a * 0, a * 1. */
  function Identity(r: Rhs): Option<Operand>
    requires Foldable(r)
  {
    if r.code.Negate? then None
    else
      var b := Logical(r.arg2.value);
      if (r.code.Plus? || r.code.Minus?) && b == Some(0) then Some(Packed(r.arg1))
      else if r.code.Mult? && b == Some(0) then Some(Packed(r.arg2.value))
      else if r.code.Mult? && b == Some(1) then Some(Packed(r.arg1))
      else None
  }

  /** The operand that replaces the right-hand side, if any does. */
  function Fold(r: Rhs): Option<Operand> {
    if !Foldable(r) then None
    else if ConstantResult(r).Some? && PackConstant(ConstantResult(r).value, T32).Some? then
      Some(Cst(PackConstant(ConstantResult(r).value, T32).value))
    else Identity(r)
  }

  /** The multiplication of two constants is done in int64_t. */
  predicate ProductFits(r: Rhs) {
    r.code.Mult? && r.arg2.Some? && Logical(r.arg1).Some? && Logical(r.arg2.value).Some? ==>
      Fits64(Logical(r.arg1).value * Logical(r.arg2.value).value)
  }

  class GimpleAssign {
    var rhs: Rhs
    var loweredCount: nat

    constructor (r: Rhs)
      ensures rhs == r && loweredCount == 0
    {
      rhs := r;
      loweredCount := 0;
    }

    method SetRhsFromTree(a: Operand)
      modifies this
      ensures rhs == Rhs(Copy, a, None) && loweredCount == old(loweredCount) + 1
    {
      rhs := Rhs(Copy, a, None);
      loweredCount := loweredCount + 1;
    }

    /** The fold and simplify block of the pass, on an assignment of type t32. */
    method FoldTernary() returns (replaced: bool)
      requires Typed(rhs) && ProductFits(rhs)
      modifies this
      ensures replaced == Fold(old(rhs)).Some?
      ensures replaced ==> rhs == Rhs(Copy, Fold(old(rhs)).value, None)
      ensures !replaced ==> rhs == old(rhs)
      ensures loweredCount == old(loweredCount) + if replaced then 1 else 0
    {
      hide Ops.Encode, Ops.Decode, PackConstant, UnpackConstant, Packed, Logical, TruncDiv, TruncMod, InRange;
      var code := rhs.code;
      var arg1, arg1Const, logical1 := ReadOperand(rhs.arg1);
      var arg2, arg2Const, logical2 := arg1, false, 0 as int64;
      if rhs.arg2.Some? {
        arg2, arg2Const, logical2 := ReadOperand(rhs.arg2.value);
      }
      if code == Negate && arg1Const {
        var packed := TernaryPackConstant(-(logical1 as int), T32);
        if packed.Some? {
          SetRhsFromTree(Cst(packed.value));
          return true;
        }
      } else if arg1Const && arg2Const && code != Negate {
        var folded: int64 := 0;
        var canFold := true;
        if code == Plus {
          folded := logical1 + logical2;
        } else if code == Minus {
          folded := logical1 - logical2;
        } else if code == Mult {
          folded := logical1 * logical2;
        } else if code == TruncDivide {
          if logical2 != 0 {
            TruncDivMod(logical1 as int, logical2 as int);
            folded := TruncDiv(logical1 as int, logical2 as int) as int64;
          }
        } else if code == TruncModulo {
          if logical2 != 0 {
            TruncDivMod(logical1 as int, logical2 as int);
            folded := TruncMod(logical1 as int, logical2 as int) as int64;
          }
        } else {
          canFold := false;
        }
        if canFold {
          var packed := TernaryPackConstant(folded as int, T32);
          if packed.Some? {
            SetRhsFromTree(Cst(packed.value));
            return true;
          }
        }
      }
      if code == Plus && arg2Const && logical2 == 0 {
        SetRhsFromTree(arg1);
        return true;
      } else if code == Minus && arg2Const && logical2 == 0 {
        SetRhsFromTree(arg1);
        return true;
      } else if code == Mult && arg2Const {
        if logical2 == 0 {
          SetRhsFromTree(arg2);
          return true;
        } else if logical2 == 1 {
          SetRhsFromTree(arg1);
          return true;
        }
      }
      replaced := false;
    }
  }

  /** Pack an operand if it is a literal, then see whether it is a known constant. */
  method ReadOperand(a: Operand) returns (arg: Operand, known: bool, logical: int64)
    requires TypedOperand(a)
    ensures arg == Packed(a)
    ensures known == Logical(a).Some?
    ensures known ==> logical as int == Logical(a).value && Abs(logical as int) <= 0x1000_0000_0000_0000
  {
    arg, known, logical := a, false, 0;
    if a.Cst? {
      var packed := TernaryPackConstant(a.value, T32);
      if packed.Some? {
        arg := Cst(packed.value);
      }
      var v := TernaryUnpackConstant(arg.value, T32);
      if v.Some? {
        LogicalBound(arg.value);
        known, logical := true, v.value as int64;
      }
    }
  }

  lemma LogicalBound(w: int)
    requires w >= 0
    ensures InRange(Ops.Decode(w, 32), 32) && Abs(Ops.Decode(w, 32)) <= 0x1000_0000_0000_0000
  {
    DecodeInRange(w, 32);
    Pow3Constants();
  }

  // Folding agrees with the runtime

  lemma PackedTyped(a: Operand)
    requires TypedOperand(a)
    ensures TypedOperand(Packed(a))
  {
    if a.Cst? && PackConstant(a.value, T32).Some? {
      EncodeFits(a.value, 32);
    }
  }

  lemma LogicalIsDecode(a: Operand, env: nat -> nat)
    requires TypedOperand(a)
    ensures Logical(a).Some? <==> a.Cst?
    ensures a.Cst? ==> Logical(a) == Some(Ops.Decode(Word(Packed(a), env), 32))
  {
    PackedTyped(a);
  }

  lemma ZeroWord(w: int)
    requires FitsUnsigned64(w) && Ops.Decode(w, 32) == 0
    ensures w == Ops.Encode(0, 32)
  {
    ZeroCodes(w, 32);
    Pow2Constants();
    RoundTripWord(w, 32);
  }

  /** The value 0 leaves no trit for the spare code. */
  lemma ZeroCodes(w: nat, n: nat)
    requires Ops.Decode(w, n) == 0
    ensures forall i: nat :: i < n ==> GetBits(w, i) != 3
  {
    var ts, z := TritsOf(w, n), Repeat(0, n);
    ZeroVal(n);
    ValInjective(ts, z);
    forall i: nat | i < n ensures GetBits(w, i) != 3 {
      assert ts[i] == z[i];
    }
  }

  lemma ConstantFoldAgrees(r: Rhs, env: nat -> nat)
    requires Typed(r) && Foldable(r) && ConstantResult(r).Some?
    ensures Ops.Encode(ConstantResult(r).value, 32) == Helper(r, env)
  {
    hide Ops.Encode, Ops.Decode, PackConstant, UnpackConstant, Packed, Logical, Word, TruncDiv, TruncMod;
    LogicalIsDecode(r.arg1, env);
    if r.arg2.Some? {
      LogicalIsDecode(r.arg2.value, env);
    }
  }

  /** An identity is left only when the first operand is a variable. */
  lemma IdentityOnVariable(r: Rhs)
    requires Typed(r) && Foldable(r) && Fold(r) == Identity(r) && Identity(r).Some? && r.arg1.Cst?
    ensures ConstantResult(r).Some? && PackConstant(ConstantResult(r).value, T32).Some?
  {
    hide Ops.Encode, Ops.Decode, UnpackConstant, Packed, Logical, Word, TruncDiv, TruncMod, PackConstant;
    var env := (x: nat) => 0;
    LogicalIsDecode(r.arg1, env);
    LogicalIsDecode(r.arg2.value, env);
    LogicalBound(Word(Packed(r.arg1), env));
    Pow3Constants();
    UnpackPack(ConstantResult(r).value, 32);
  }

  lemma IdentityAgrees(r: Rhs, env: nat -> nat)
    requires Typed(r) && Foldable(r) && Identity(r).Some? && r.arg1.Var?
    ensures Word(Identity(r).value, env) == Helper(r, env) <==>
      PassesCanonical(Identity(r).value, env)
  {
    hide Ops.Encode, Ops.Decode, PackConstant, UnpackConstant, Canonical, Canon;
    LogicalIsDecode(r.arg2.value, env);
    var a, b := env(r.arg1.id), Word(Packed(r.arg2.value), env);
    RoundTripWord(a, 32);
    if r.code.Mult? && Logical(r.arg2.value) == Some(0) {
      PackedTyped(r.arg2.value);
      ZeroWord(b);
    }
  }

  /** Whatever the pass puts in place of a right-hand side is the word the helper returns,
      for every run; except that the identities pass a variable through unchanged, which is
      the helper's word exactly when the variable's word is canonical. */
  lemma {:induction false} FoldAgrees(r: Rhs, env: nat -> nat)
    requires Typed(r)
    ensures Fold(r).Some? ==>
      Foldable(r) && (Word(Fold(r).value, env) == Helper(r, env) <==> PassesCanonical(Fold(r).value, env))
  {
    if Fold(r).Some? {
      if ConstantResult(r).Some? && PackConstant(ConstantResult(r).value, T32).Some? {
        ConstantFoldAgrees(r, env);
      } else {
        if r.arg1.Cst? {
          IdentityOnVariable(r);
        }
        IdentityAgrees(r, env);
      }
    }
  }

  /** If the operand is a variable, its word is canonical. */
  predicate PassesCanonical(a: Operand, env: nat -> nat) {
    a.Var? ==> Canonical(env(a.id), 32)
  }

  /** `x + 0` with x the word of 32 spare codes: x is passed on, the helper returns the
      canonical word of the same value. */
  lemma PassedVariableDiffers()
    ensures var r, env := Rhs(Plus, Var(0), Some(Cst(0))), (x: nat) => 0xffff_ffff_ffff_ffff;
      Fold(r) == Some(Var(0)) && Word(Var(0), env) != Helper(r, env)
  {
    hide Ops.Decode, Ops.Encode, Helper, Canonical, GetBits;
    var r, env := Rhs(Plus, Var(0), Some(Cst(0))), (x: nat) => 0xffff_ffff_ffff_ffff;
    ZeroPacks();
    ZeroUnpacks();
    SpareNotCanonical(env(0));
    FoldAgrees(r, env);
  }

  lemma SpareNotCanonical(w: nat)
    requires w % 4 == 3
    ensures !Canonical(w, 32)
  {
    GetBitsLow(w);
    assert GetBits(w, 0) == 3;
  }

  lemma ZeroUnpacks()
    ensures UnpackConstant(Ops.Encode(0, 32), T32) == Some(0)
  {
    UnpackPack(0, 32);
  }

  lemma ZeroPacks()
    ensures PackConstant(0, T32) == Some(Ops.Encode(0, 32))
  {
    UnpackPack(0, 32);
  }

  /** Division and remainder by a zero constant fold to the zero word, as the helper has it. */
  lemma {:induction false} FoldByZero(r: Rhs)
    requires Typed(r) && (r.code.TruncDivide? || r.code.TruncModulo?) && r.arg2.Some?
    requires r.arg1.Cst? && Logical(r.arg2.value) == Some(0)
    ensures Fold(r) == Some(Cst(Ops.Encode(0, 32)))
  {
    hide Ops.Encode, Ops.Decode, UnpackConstant, Packed, Logical, Word, TruncDiv, TruncMod, PackConstant, Identity;
    LogicalIsDecode(r.arg1, (x: nat) => 0);
    ZeroPacks();
  }

  // When the block folds, and to what

  /** The number a literal stands for: itself if 32 trits hold it, else what its word says. */
  function Named(k: nat): int {
    if InRange(k, 32) then k else Ops.Decode(k, 32)
  }

  /** The word of a value that 32 trits hold. */
  function WordFor(v: int): Option<Operand> {
    if InRange(v, 32) then Some(Cst(Ops.Encode(v, 32))) else None
  }

  lemma LogicalNamed(k: nat)
    requires FitsUnsigned64(k)
    ensures Logical(Cst(k)) == Some(Named(k)) && InRange(Named(k), 32)
    ensures Named(k) == 0 ==> Packed(Cst(k)) == Cst(Ops.Encode(0, 32))
  {
    hide Ops.Encode, Ops.Decode;
    UnpackPack(k, 32);
    LogicalBound(k);
    if !InRange(k, 32) && Ops.Decode(k, 32) == 0 {
      ZeroWord(k);
      UnpackPack(0, 32);
    }
  }

  /** C's quotient and remainder are no larger than the dividend. */
  lemma QuotientInRange(x: int, y: int)
    requires y != 0 && InRange(x, 32)
    ensures InRange(TruncDiv(x, y), 32) && InRange(TruncMod(x, y), 32)
  {
    hide TruncDiv, TruncMod, InRange;
    TruncDivMod(x, y);
    RemainderBelow(x, y);
    SmallerInRange(TruncDiv(x, y), x);
    SmallerInRange(TruncMod(x, y), x);
  }

  lemma SmallerInRange(v: int, x: int)
    requires Abs(v) <= Abs(x) && InRange(x, 32)
    ensures InRange(v, 32)
  {
    hide MaxAbs;
  }

  /** Two constants fold exactly when 32 trits hold the exact result, to its word. Quotient and
      remainder always do, and are 0 for a zero divisor. */
  lemma {:induction false} ConstantsFold(code: Code, k: nat, l: nat)
    requires FitsUnsigned64(k) && FitsUnsigned64(l)
    ensures var x, y := Named(k), Named(l);
      Fold(Rhs(code, Cst(k), Some(Cst(l)))) ==
        match code
        case Plus => WordFor(x + y)
        case Minus => WordFor(x - y)
        case Mult => WordFor(x * y)
        case TruncDivide => Some(Cst(Ops.Encode(if y == 0 then 0 else TruncDiv(x, y), 32)))
        case TruncModulo => Some(Cst(Ops.Encode(if y == 0 then 0 else TruncMod(x, y), 32)))
        case Negate => Some(Cst(Ops.Encode(-x, 32)))
        case _ => None
  {
    hide Ops.Encode, Logical, Packed, Named, PackConstant, TruncDiv, TruncMod;
    var x, y := Named(k), Named(l);
    LogicalNamed(k);
    LogicalNamed(l);
    if y != 0 {
      QuotientInRange(x, y);
    }
    var r := Rhs(code, Cst(k), Some(Cst(l)));
    if Foldable(r) {
      PackExact(ConstantResult(r).value, T32);
    }
  }

  /** A negated constant always folds, to the word of the negated value. */
  lemma NegationFolds(k: nat, arg2: Option<Operand>)
    requires FitsUnsigned64(k)
    ensures Fold(Rhs(Negate, Cst(k), arg2)) == Some(Cst(Ops.Encode(-Named(k), 32)))
  {
    hide Ops.Encode, Logical, Packed, Named, PackConstant;
    LogicalNamed(k);
    PackExact(-Named(k), T32);
  }

  /** With a variable in front only x + 0, x - 0, x * 0 and x * 1 are folded: to x, or to the
      zero word. */
  lemma VariableFolds(code: Code, x: nat, arg2: Option<Operand>)
    requires arg2.Some? ==> TypedOperand(arg2.value)
    ensures Fold(Rhs(code, Var(x), arg2)) ==
      if arg2.None? || arg2.value.Var? then None
      else
        var y := Named(arg2.value.value);
        if (code.Plus? || code.Minus?) && y == 0 then Some(Var(x))
        else if code.Mult? && y == 1 then Some(Var(x))
        else if code.Mult? && y == 0 then Some(Cst(Ops.Encode(0, 32)))
        else None
  {
    hide Ops.Encode, Ops.Decode, Named, PackConstant, UnpackConstant;
    if arg2.Some? && arg2.value.Cst? {
      LogicalNamed(arg2.value.value);
    }
  }

  /** A constant before a variable folds only under negation, and a copy or any other code
      never does. */
  lemma OthersStay(r: Rhs)
    requires Typed(r)
    requires r.code.Copy? || r.code.OtherCode? || (!r.code.Negate? && (r.arg2.None? || r.arg2.value.Var?))
    ensures Fold(r) == None
  {
  }

  // What is not folded

  /** A literal handed to a helper without packing is read as a negative word. */
  lemma RawLiteralNegative(k: nat)
    requires InRange(k, 32)
    ensures Ops.Decode(k, 32) < 0
  {
    var ts := TritsOf(k, 32);
    Pow3Constants();
    Pow2Constants();
    SmallTop(k, 31);
    LeadingTritIsSign(ts);
  }

  lemma {:induction false} SmallTop(w: nat, i: nat)
    requires w < Pow2(2 * i)
    ensures GetBits(w, i) == 0
  {
    if i == 0 {
      GetBitsLow(w);
    } else {
      GetBitsUp(w, i);
      assert Pow2(2 * i) == 2 * Pow2(2 * i - 1) == 4 * Pow2(2 * i - 2);
      SmallTop(w / 4, i - 1);
    }
  }

  lemma AddDef(a: nat, b: nat, n: nat)
    ensures Ops.Add(a, b, n) == Ops.Encode(Ops.Decode(a, n) + Ops.Decode(b, n), n)
  {
  }

  /** Values in range give one sum only if they are equal. */
  lemma SameSum(v: int, x: int, y: int, n: nat)
    requires InRange(x, n) && InRange(y, n)
    ensures Ops.Encode(v + x, n) == Ops.Encode(v + y, n) <==> x == y
  {
    EncodeEqual(v + x, v + y, n);
    if Cong(v + x, v + y, Pow3(n)) {
      var j := CongElim(v + x, v + y, Pow3(n));
      SmallMultiple(x - y, Pow3(n), j);
    }
  }

  /** The call the pass emits when nothing folds takes the operands unpacked, so a literal
      addend always gives a sum other than the one it names. */
  lemma {:induction false} UnfoldedLiteralDiffers(a: nat, k: nat)
    requires InRange(k, 32)
    ensures Ops.Add(a, k, 32) != Ops.Add(a, Ops.Encode(k, 32), 32)
  {
    hide *;
    var v, x := Ops.Decode(a, 32), Ops.Decode(k, 32);
    RawLiteralNegative(k);
    DecodeInRange(k, 32);
    RoundTripValue(k, 32);
    AddDef(a, k, 32);
    AddDef(a, Ops.Encode(k, 32), 32);
    SameSum(v, x, k, 32);
  }
}
