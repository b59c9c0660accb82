/** What lowering delivers, and when that is what the source means. */
module Preservation {
  import opened Wrappers
  import opened CArith
  import opened BitOps
  import opened Trits
  import opened Words
  import opened Constants
  import opened Lowering
  import opened Residue
  import Ops = PackedOps
  import WordLaws

  function Pick(ty: Type, v: int, t: int, f: int): int {
    if Holds(ty, v) then t else f
  }

  /** The value of what an operand becomes. Where a conditional is dropped or selected, the
      condition is tested by its logical value; where it survives, as the word it is. */
  function Delivered(e: Expr, w: World): int
    decreases e, 1
  {
    match e
    case Cst(_, _) => PackOperand(e).value
    case Var(id, ty) => Norm(ty, w.vars(id))
    case Tmp(_, _) => 0
    case Op(code, args, ty, _) => Norm(ty, w.ops(code, Delivereds(args, w)))
    case Convert(a) => Wrap64(Delivered(a, w))
    case Cond(c, t, f, ty) =>
      if Dropped(e) || HasSelect(ty, TypeOf(c)) then
        Pick(TypeOf(c), Delivered(c, w), Delivered(t, w), Delivered(f, w))
      else if Left(c, w) != 0 then Left(t, w)
      else Left(f, w)
  }

  /** The value of the node an expression leaves behind. */
  function Left(e: Expr, w: World): int
    decreases e, 2
  {
    match e
    case Cst(v, _) => v
    case Cond(c, t, f, _) => if Left(c, w) != 0 then Left(t, w) else Left(f, w)
    case _ => Delivered(e, w)
  }

  function Delivereds(es: seq<Expr>, w: World): (vs: seq<int>)
    ensures |vs| == |es|
    decreases es, 0
  {
    if es == [] then [] else [Delivered(es[0], w)] + Delivereds(es[1..], w)
  }

  // The lowered code delivers that

  /** A constant condition is always known, and read by its logical value. */
  lemma KnownZeroExact(c: Expr)
    requires c.Cst? && IsCondType(c.ty) && InType(c.ty, c.value)
    ensures KnownZero(c) == Some(!Holds(c.ty, c.value))
  {
    hide Ops.Decode;
    Width64(32);
  }

  lemma {:induction false} DeliveredInType(e: Expr, w: World)
    requires WellFormedOperand(e)
    ensures InType(TypeOf(e), Delivered(e, w)) && InType(TypeOf(e), Left(e, w))
    decreases e
  {
    if IsLiteral(e) {
      LiteralWord(e);
    } else {
      assert WellFormed(e);
      match e
      case Var(id, ty) => NormInType(ty, w.vars(id));
      case Op(code, args, ty, _) => NormInType(ty, w.ops(code, Delivereds(args, w)));
      case Cond(_, t, f, _) =>
        DeliveredInType(t, w);
        DeliveredInType(f, w);
      case _ =>
    }
  }

  lemma RunOne(a: Stmt, w: World, tmps: Temps)
    ensures RunAll([a], w, tmps) == Run(a, w, tmps)
  {
  }

  lemma RunTwo(a: Stmt, b: Stmt, w: World, tmps: Temps)
    ensures RunAll([a] + [b], w, tmps) == Run(b, w, Run(a, w, tmps))
  {
    RunAppend([a], [b], w, tmps);
  }

  /** tt2b, then select on its result. */
  lemma TernarySelect(c: Expr, t: Expr, f: Expr, lo: nat, next: nat, w: World, tmps: Temps)
    requires TypeOf(c).Ternary? && Within(t, lo, next) && Within(f, lo, next)
    ensures
      Get(RunAll([CallTt2b(next, c)] + [CallSelect(next + 1, Tmp(next, LONG_LONG), t, f)], w, tmps), next + 1)
        == Pick(TypeOf(c), Eval(c, w, tmps), Eval(t, w, tmps), Eval(f, w, tmps))
  {
    hide Ops.Decode;
    var first, call := CallTt2b(next, c), CallSelect(next + 1, Tmp(next, LONG_LONG), t, f);
    var tmps' := Run(first, w, tmps);
    EvalFrame(t, w, tmps, tmps', lo, next);
    EvalFrame(f, w, tmps, tmps', lo, next);
    RunTwo(first, call, w, tmps);
  }

  lemma LongCondHolds(c: Expr, w: World, tmps: Temps)
    requires TypeOf(c).Integer? && TypeOf(c).bits <= 64 && InType(TypeOf(c), Eval(c, w, tmps))
    ensures Eval(LongCond(c), w, tmps) != 0 <==> Holds(TypeOf(c), Eval(c, w, tmps))
  {
    hide Wrap64, InType, Norm, Pow2;
    ConvertKeepsZero(TypeOf(c), Eval(c, w, tmps));
  }

  /** select on the condition itself. */
  lemma IntegerSelect(c: Expr, t: Expr, f: Expr, next: nat, w: World, tmps: Temps)
    requires TypeOf(c).Integer? && TypeOf(c).bits <= 64 && InType(TypeOf(c), Eval(c, w, tmps))
    ensures Get(RunAll([CallSelect(next, LongCond(c), t, f)], w, tmps), next)
         == Pick(TypeOf(c), Eval(c, w, tmps), Eval(t, w, tmps), Eval(f, w, tmps))
  {
    hide InType, Holds, LongCond, Eval;
    LongCondHolds(c, w, tmps);
    RunOne(CallSelect(next, LongCond(c), t, f), w, tmps);
  }

  /** tt2b and select, or select alone, compute the choice. */
  lemma SelectMeaning(ty: Type, kept: Expr, c: Expr, t: Expr, f: Expr, lo: nat, next: nat, w: World, tmps: Temps)
    requires IsCondType(TypeOf(c)) && InType(TypeOf(c), Eval(c, w, tmps))
    requires Within(t, lo, next) && Within(f, lo, next)
    requires KnownZero(c).None? && t != f && HasSelect(ty, TypeOf(c))
    ensures var r := Choose(ty, kept, c, t, f, next);
      Eval(r.result, w, RunAll(r.stmts, w, tmps))
        == Pick(TypeOf(c), Eval(c, w, tmps), Eval(t, w, tmps), Eval(f, w, tmps))
  {
    hide Run, RunAll, Holds, InType, Tt2b, Norm, Within, KnownZero, HasSelect;
    if TypeOf(c).Ternary? {
      TernarySelect(c, t, f, lo, next, w, tmps);
    } else {
      IntegerSelect(c, t, f, next, w, tmps);
      var call := CallSelect(next, LongCond(c), t, f);
      assert [] + [call] == [call];
    }
  }

  /** Without a helper the node is returned, whatever was emitted before. */
  lemma KeptMeaning(ty: Type, kept: Expr, c: Expr, t: Expr, f: Expr, lo: nat, next: nat, w: World, tmps: Temps)
    requires Within(kept, lo, next)
    requires KnownZero(c).None? && t != f && !HasSelect(ty, TypeOf(c))
    ensures var r := Choose(ty, kept, c, t, f, next);
      Eval(r.result, w, RunAll(r.stmts, w, tmps)) == Eval(kept, w, tmps)
  {
    hide Run, RunAll, Eval, Within, KnownZero, HasSelect;
    var r := Choose(ty, kept, c, t, f, next);
    RunFrame(r.stmts, next, r.next, w, tmps);
    EvalFrame(kept, w, tmps, RunAll(r.stmts, w, tmps), lo, next);
  }

  /** Dropping a known condition, merging equal branches, and tt2b with select all compute
      the conditional's choice; a conditional without a helper is what its node is. */
  lemma ChooseMeaning(ty: Type, kept: Expr, c: Expr, t: Expr, f: Expr, lo: nat, next: nat, w: World, tmps: Temps)
    requires IsCondType(TypeOf(c)) && InType(TypeOf(c), Eval(c, w, tmps))
    requires Within(kept, lo, next) && Within(t, lo, next) && Within(f, lo, next)
    ensures var r := Choose(ty, kept, c, t, f, next);
      Eval(r.result, w, RunAll(r.stmts, w, tmps))
        == if KnownZero(c).Some? || t == f || HasSelect(ty, TypeOf(c))
           then Pick(TypeOf(c), Eval(c, w, tmps), Eval(t, w, tmps), Eval(f, w, tmps))
           else Eval(kept, w, tmps)
  {
    if KnownZero(c).Some? {
      hide InType, Holds, Within, Norm, HasSelect, LongCond;
      KnownZeroExact(c);
    } else if t == f {
      hide Holds, Within, HasSelect, LongCond;
    } else if HasSelect(ty, TypeOf(c)) {
      hide *;
      SelectMeaning(ty, kept, c, t, f, lo, next, w, tmps);
    } else {
      hide *;
      KeptMeaning(ty, kept, c, t, f, lo, next, w, tmps);
    }
  }

  /** In a state: the operand is worth what is delivered, the node what is left. */
  ghost predicate Worth(e: Expr, l: Lowered<Expr>, node: Expr, w: World, tmps: Temps) {
    Eval(PackOperand(l.result), w, tmps) == Delivered(e, w) && Eval(node, w, tmps) == Left(e, w)
  }

  lemma {:induction false} LowerDelivers(e: Expr, next: nat, w: World, tmps: Temps)
    requires WellFormedOperand(e)
    ensures Worth(e, Lower(e, next), Node(e, next), w, RunAll(Lower(e, next).stmts, w, tmps))
    decreases e, 2
  {
    LowerShape(e, next);
    if IsLiteral(e) {
      LiteralWord(e);
    } else {
      assert WellFormed(e);
      match e
      case Op(code, args, ty, _) =>
        LowerOp(e, next);
        ArgsDeliver(args, next, w, tmps);
      case Cond(_, _, _, _) => CondDelivers(e, next, w, tmps);
      case _ =>
    }
  }

  /** Later statements do not change it. */
  lemma WorthKept(e: Expr, l: Lowered<Expr>, node: Expr, next: nat, more: seq<Stmt>, hi: nat, w: World, tmps: Temps)
    requires Shaped(e, l, node, next) && Worth(e, l, node, w, tmps) && Writes(more, l.next, hi)
    ensures Worth(e, l, node, w, RunAll(more, w, tmps))
  {
    RunFrame(more, l.next, hi, w, tmps);
    EvalFrame(PackOperand(l.result), w, tmps, RunAll(more, w, tmps), next, l.next);
    EvalFrame(node, w, tmps, RunAll(more, w, tmps), next, l.next);
  }

  /** The state a conditional's own statements start from. */
  function OperandsRun(p: Steps, w: World, tmps: Temps): Temps {
    RunAll(p.f.stmts, w, RunAll(p.t.stmts, w, RunAll(p.c.stmts, w, tmps)))
  }

  lemma RunSteps(p: Steps, w: World, tmps: Temps)
    ensures RunAll(p.c.stmts + p.t.stmts + p.f.stmts + p.own.stmts, w, tmps)
         == RunAll(p.own.stmts, w, OperandsRun(p, w, tmps))
  {
    RunAppend(p.c.stmts + p.t.stmts + p.f.stmts, p.own.stmts, w, tmps);
    RunAppend(p.c.stmts + p.t.stmts, p.f.stmts, w, tmps);
    RunAppend(p.c.stmts, p.t.stmts, w, tmps);
  }

  /** There, all three operands are worth what they should be. */
  lemma {:induction false} OperandsWorth(e: Expr, next: nat, w: World, tmps: Temps)
    requires e.Cond? && WellFormed(e)
    ensures var p := StepsOf(e, next); var s := OperandsRun(p, w, tmps);
      Worth(e.c, p.c, Node(e.c, next), w, s) && Worth(e.t, p.t, Node(e.t, p.c.next), w, s) &&
      Worth(e.f, p.f, Node(e.f, p.t.next), w, s)
    decreases e, 0
  {
    var p := StepsOf(e, next);
    var s1 := RunAll(p.c.stmts, w, tmps);
    var s2 := RunAll(p.t.stmts, w, s1);
    CondShape(e, next);
    LowerDelivers(e.c, next, w, tmps);
    LowerDelivers(e.t, p.c.next, w, s1);
    LowerDelivers(e.f, p.t.next, w, s2);
    hide Lower, Node, Choose, RunAll, Worth, Clean, Within, WellFormed;
    WorthKept(e.c, p.c, Node(e.c, next), next, p.t.stmts, p.t.next, w, s1);
    WorthKept(e.c, p.c, Node(e.c, next), next, p.f.stmts, p.f.next, w, s2);
    WorthKept(e.t, p.t, Node(e.t, p.c.next), p.c.next, p.f.stmts, p.f.next, w, s2);
  }

  lemma {:induction false} CondDelivers(e: Expr, next: nat, w: World, tmps: Temps)
    requires e.Cond? && WellFormed(e)
    ensures Worth(e, Lower(e, next), Node(e, next), w, RunAll(Lower(e, next).stmts, w, tmps))
    decreases e, 1
  {
    var p := StepsOf(e, next);
    var s := OperandsRun(p, w, tmps);
    CondShape(e, next);
    OperandsWorth(e, next, w, tmps);
    CondStatic(e, next);
    DeliveredInType(e.c, w);
    LowerCond(e, next);
    RunSteps(p, w, tmps);
    hide Lower, Node, Choose, RunAll, Within, Static, KnownZero, PackOperand, Writes, HasSelect, OperandsRun;
    ChooseMeaning(e.ty, Node(e, next), p.Cond(), p.Then(), p.Else(), next, p.f.next, w, s);
    RunFrame(p.own.stmts, p.f.next, p.own.next, w, s);
    EvalFrame(Node(e, next), w, s, RunAll(p.own.stmts, w, s), next, p.f.next);
  }

  lemma {:induction false} ArgsDeliver(es: seq<Expr>, next: nat, w: World, tmps: Temps)
    requires forall i :: 0 <= i < |es| ==> WellFormed(es[i])
    ensures var l := LowerArgs(es, next);
      Evals(l.result, w, RunAll(l.stmts, w, tmps)) == Delivereds(es, w)
    decreases es, 0
  {
    if es != [] {
      var h := Lower(es[0], next);
      var r := LowerArgs(es[1..], h.next);
      LowerShape(es[0], next);
      LowerArgsShape(es[1..], h.next);
      LowerDelivers(es[0], next, w, tmps);
      WorthKept(es[0], h, Node(es[0], next), next, r.stmts, r.next, w, RunAll(h.stmts, w, tmps));
      ArgsDeliver(es[1..], h.next, w, RunAll(h.stmts, w, tmps));
      RunAppend(h.stmts, r.stmts, w, tmps);
      assert LowerArgs(es, next).result[1..] == r.result;
    }
  }

  // When that is the meaning

  /** A constant residue is the constant the source means. */
  lemma {:induction false} ConstantMeans(e: Expr, w: World)
    requires WellFormedOperand(e) && Static(e).Some? && Static(e).value.Cst?
    ensures Static(e).value == Cst(Meaning(e, w), TypeOf(e)) && InType(TypeOf(e), Meaning(e, w))
    decreases e
  {
    if IsLiteral(e) {
      LiteralWord(e);
    } else if e.Cond? {
      if KnownCond(e).Some? {
        ConstantMeans(e.c, w);
        KnownZeroExact(Static(e.c).value);
        ConstantMeans(Branch(e), w);
      } else {
        ConstantMeans(e.t, w);
        ConstantMeans(e.f, w);
      }
    }
  }

  /** A residue is worth what is delivered, in any state. */
  lemma StaticDelivers(e: Expr, w: World)
    requires WellFormedOperand(e) && Static(e).Some?
    ensures Eval(Static(e).value, w, map[]) == Delivered(e, w)
  {
    var l := Lower(e, 0);
    StaticExact(e, 0);
    LowerDelivers(e, 0, w, map[]);
    hide Lower, Node, Static;
    EvalFrame(PackOperand(l.result), w, map[], RunAll(l.stmts, w, map[]), 0, 0);
  }

  /** A dropped conditional delivers what its branch does. */
  lemma DroppedDelivers(e: Expr, w: World)
    requires e.Cond? && WellFormed(e) && Dropped(e)
    ensures Delivered(e, w) == Delivered(Branch(e), w)
    ensures KnownCond(e).Some? ==> Meaning(e, w) == Meaning(Branch(e), w)
    ensures SameBranches(e) ==> Delivered(e.t, w) == Delivered(e.f, w)
  {
    if SameBranches(e) {
      StaticDelivers(e.t, w);
      StaticDelivers(e.f, w);
    }
    if KnownCond(e).Some? {
      ConstantMeans(e.c, w);
      StaticDelivers(e.c, w);
      KnownZeroExact(Static(e.c).value);
    }
  }

  /** What is left reads as the meaning does: as a word it is the same, as a 32-trit
      condition it is zero when the logical value is. */
  predicate Reads(ty: Type, left: int, meaning: int) {
    if ty == T32 then left != 0 <==> Holds(ty, meaning) else left == meaning
  }

  /** No surviving conditional tests a 32-trit variable or operation. */
  predicate Intact(e: Expr)
    decreases e, 1
  {
    match e
    case Op(_, args, _, _) => forall i :: 0 <= i < |args| ==> Intact(args[i])
    case Cond(c, t, f, ty) =>
      if KnownCond(e).Some? then Intact(Branch(e))
      else if SameBranches(e) then Intact(t) && Intact(f)
      else if HasSelect(ty, TypeOf(c)) then Intact(c) && Intact(t) && Intact(f)
      else NodeIntact(c) && NodeIntact(t) && NodeIntact(f)
    case _ => true
  }

  /** The same of an operand left in a survivor. There a literal has its raw value, which as a
      condition is right unless it was refused and is a word for zero. */
  predicate NodeIntact(e: Expr)
    decreases e, 2
  {
    match e
    case Cst(v, ty) => ty == T32 ==> (v != 0 <==> Holds(ty, PackOperand(e).value))
    case Cond(c, t, f, _) => NodeIntact(c) && NodeIntact(t) && NodeIntact(f)
    case _ => TypeOf(e) != T32 && Intact(e)
  }

  lemma {:induction false} IntactMeans(e: Expr, w: World)
    requires WellFormedOperand(e) && Intact(e)
    ensures Delivered(e, w) == Meaning(e, w)
    decreases e, 1
  {
    if !IsLiteral(e) {
      assert WellFormed(e);
      match e
      case Op(_, args, _, _) => ArgsMean(args, w);
      case Cond(c, t, f, ty) => CondMeans(e, w);
      case _ =>
    }
  }

  lemma {:induction false} CondMeans(e: Expr, w: World)
    requires e.Cond? && WellFormed(e) && Intact(e)
    ensures Delivered(e, w) == Meaning(e, w)
    decreases e, 0
  {
    hide Ops.Decode, InType;
    if Dropped(e) {
      DroppedDelivers(e, w);
      if KnownCond(e).Some? {
        IntactMeans(Branch(e), w);
      } else {
        IntactMeans(e.t, w);
        IntactMeans(e.f, w);
      }
    } else if HasSelect(e.ty, TypeOf(e.c)) {
      IntactMeans(e.c, w);
      IntactMeans(e.t, w);
      IntactMeans(e.f, w);
    } else {
      NodeReads(e.c, w);
      NodeReads(e.t, w);
      NodeReads(e.f, w);
    }
  }

  lemma {:induction false} NodeReads(e: Expr, w: World)
    requires WellFormedOperand(e) && NodeIntact(e)
    ensures Reads(TypeOf(e), Left(e, w), Meaning(e, w))
    decreases e, 2
  {
    hide Ops.Decode, InType;
    if e.Cond? {
      NodeReads(e.c, w);
      NodeReads(e.t, w);
      NodeReads(e.f, w);
    } else if !e.Cst? {
      IntactMeans(e, w);
    }
  }

  lemma {:induction false} ArgsMean(es: seq<Expr>, w: World)
    requires forall i :: 0 <= i < |es| ==> WellFormed(es[i]) && Intact(es[i])
    ensures Delivereds(es, w) == Meanings(es, w)
    decreases es, 0
  {
    if es != [] {
      IntactMeans(es[0], w);
      ArgsMean(es[1..], w);
    }
  }

  lemma {:induction false} HelpedIntact(e: Expr)
    requires Helped(e)
    ensures Intact(e)
  {
    match e
    case Op(_, args, _, _) =>
      forall i | 0 <= i < |args| ensures Intact(args[i]) {
        HelpedIntact(args[i]);
      }
    case Cond(c, t, f, _) =>
      HelpedIntact(c);
      HelpedIntact(t);
      HelpedIntact(f);
    case _ =>
  }

  /** The lowering theorem, for every well-formed expression and in every world: the emitted
      calls followed by the rewritten expression give the original meaning unless a surviving
      conditional misreads a 32-trit condition; a conditional survives exactly where predicted,
      and none does when every helper exists; no older temporary is disturbed. */
  lemma {:induction false} LoweringPreservesMeaning(e: Expr, next: nat, w: World, tmps: Temps)
    requires WellFormed(e)
    ensures var l := Lower(e, next);
      && Eval(l.result, w, RunAll(l.stmts, w, tmps)) == Delivered(e, w)
      && (Intact(e) ==> Delivered(e, w) == Meaning(e, w))
      && (HasCond(l.result) <==> Survives(e)) && (Flat(l.stmts) <==> CallsFlat(e))
      && (Helped(e) ==> Intact(e) && !Survives(e) && CallsFlat(e))
      && Agree(tmps, RunAll(l.stmts, w, tmps), next)
  {
    var l := Lower(e, next);
    LowerShape(e, next);
    LowerDelivers(e, next, w, tmps);
    SurvivesExact(e, next);
    CallsFlatExact(e, next);
    if Intact(e) {
      IntactMeans(e, w);
    }
    if Helped(e) {
      HelpedIntact(e);
      HelpedGone(e);
    }
    RunFrame(l.stmts, next, l.next, w, tmps);
  }

  // When it is not

  const BIT := Integer(1, true)
  const LONG_DOUBLE := Real(80)

  ghost predicate PreservedIn(e: Expr, next: nat, w: World, tmps: Temps) {
    var l := Lower(e, next);
    Eval(l.result, w, RunAll(l.stmts, w, tmps)) == Meaning(e, w)
  }

  /** Lowering keeps the meaning in every world. */
  ghost predicate Preserved(e: Expr, next: nat) {
    forall w: World, tmps: Temps :: PreservedIn(e, next, w, tmps)
  }

  ghost predicate Delivers(e: Expr) {
    forall w: World :: Delivered(e, w) == Meaning(e, w)
  }

  lemma PreservedIff(e: Expr, next: nat)
    requires WellFormed(e)
    ensures Preserved(e, next) <==> Delivers(e)
  {
    forall w: World, tmps: Temps
      ensures PreservedIn(e, next, w, tmps) <==> Delivered(e, w) == Meaning(e, w)
    {
      LoweringPreservesMeaning(e, next, w, tmps);
    }
    hide PreservedIn, Delivered, Meaning;
    if Preserved(e, next) {
      forall w: World ensures Delivered(e, w) == Meaning(e, w) {
        assert PreservedIn(e, next, w, map[]);
      }
    }
  }

  /** A survivor whose branches read right is right in a world exactly when it tests what the
      source tests there, or the choice does not matter. */
  lemma SurvivorExact(e: Expr, w: World)
    requires e.Cond? && WellFormed(e) && !Dropped(e) && !HasSelect(e.ty, TypeOf(e.c))
    requires NodeIntact(e.t) && NodeIntact(e.f)
    ensures Delivered(e, w) == Meaning(e, w) <==>
      (Left(e.c, w) != 0 <==> Holds(TypeOf(e.c), Meaning(e.c, w))) || Meaning(e.t, w) == Meaning(e.f, w)
  {
    hide Ops.Decode, InType;
    NodeReads(e.t, w);
    NodeReads(e.f, w);
  }

  /** The packed zero, which is not the word 0. */
  const ZERO_WORD: nat := Ops.Encode(0, 32)

  lemma PackedZero(n: nat)
    requires n > 0
    ensures Ops.Encode(0, n) != 0 && Ops.Decode(Ops.Encode(0, n), n) == 0
  {
    hide Ops.Encode, Ops.Decode;
    WordLaws.RoundTripValue(0, n);
    WordLaws.WordZero(n);
    Pow3Big(n);
  }

  lemma NormWord(n: nat, z: nat)
    requires z < Pow2(2 * n)
    ensures Norm(Ternary(n), z) == z && Tt2b(Ternary(n), z) == Ops.Decode(z, n)
  {
    hide Ops.Decode, Pow2;
  }

  lemma ZeroWord()
    ensures Norm(T32, ZERO_WORD) == ZERO_WORD != 0 && !Holds(T32, ZERO_WORD)
  {
    LiteralFits(0);
    PackedZero(32);
    NormWord(32, ZERO_WORD);
    hide Norm, Tt2b, Ops.Decode, Ops.Encode;
  }

  /** Every operation gives the packed zero, and so does every variable but two. */
  function ZeroWorld(i: nat, j: nat): World {
    World(id => if id == i then 0 else if id == j then 1 else ZERO_WORD, (code, vs) => ZERO_WORD)
  }

  /** Left in a survivor, x reads right in every world. */
  ghost predicate Sound(x: Expr) {
    forall w: World :: Reads(TypeOf(x), Left(x, w), Meaning(x, w))
  }

  /** What a survivor leaves as it is. */
  predicate IsLeaf(x: Expr) {
    x.Cst? || x.Var? || (x.Op? && x.ty == T32)
  }

  predicate LeafRead(x: Expr, w: World) {
    match x
    case Cst(v, ty) => Left(x, w) == v && Meaning(x, w) == PackOperand(x).value
    case Var(id, ty) => Left(x, w) == Meaning(x, w) == Norm(ty, w.vars(id))
    case Op(code, args, ty, _) =>
      Left(x, w) == Norm(ty, w.ops(code, Delivereds(args, w))) &&
      Meaning(x, w) == Norm(ty, w.ops(code, Meanings(args, w)))
    case _ => true
  }

  lemma LeafReads(x: Expr, w: World)
    ensures LeafRead(x, w)
  {
    match x
    case Op(_, _, _, _) => assert Left(x, w) == Delivered(x, w);
    case _ =>
  }

  lemma LeafGood(x: Expr, w: World)
    requires WellFormedOperand(x) && IsLeaf(x) && NodeIntact(x)
    ensures Reads(TypeOf(x), Left(x, w), Meaning(x, w))
  {
    LeafReads(x, w);
    hide Left, Meaning, Norm, Holds, InType;
  }

  lemma LeafBad(x: Expr, i: nat, j: nat)
    requires WellFormedOperand(x) && IsLeaf(x) && (x.Var? ==> x.id != i && x.id != j) && !NodeIntact(x)
    ensures !Reads(TypeOf(x), Left(x, ZeroWorld(i, j)), Meaning(x, ZeroWorld(i, j)))
  {
    LeafReads(x, ZeroWorld(i, j));
    ZeroWord();
    hide Left, Meaning, Norm, Holds, InType;
  }

  /** The test for a single operand is exact: one that fails it is misread in some world. */
  lemma LeafExact(x: Expr, i: nat, j: nat)
    requires WellFormedOperand(x) && IsLeaf(x) && (x.Var? ==> x.id != i && x.id != j)
    ensures Sound(x) <==> NodeIntact(x)
    ensures !NodeIntact(x) ==> !Reads(TypeOf(x), Left(x, ZeroWorld(i, j)), Meaning(x, ZeroWorld(i, j)))
  {
    hide Reads, Left, Meaning, NodeIntact, WellFormedOperand;
    if NodeIntact(x) {
      forall w: World ensures Reads(TypeOf(x), Left(x, w), Meaning(x, w)) {
        LeafGood(x, w);
      }
    } else {
      LeafBad(x, i, j);
    }
  }

  /** x is an operand left as it is in a conditional of e that survives. */
  predicate Site(x: Expr, e: Expr)
    decreases e, 1
  {
    match e
    case Op(_, args, _, _) => exists i :: 0 <= i < |args| && Site(x, args[i])
    case Cond(c, t, f, ty) =>
      if KnownCond(e).Some? then Site(x, Branch(e))
      else if SameBranches(e) then Site(x, t) || Site(x, f)
      else if HasSelect(ty, TypeOf(c)) then Site(x, c) || Site(x, t) || Site(x, f)
      else NodeSite(x, c) || NodeSite(x, t) || NodeSite(x, f)
    case _ => false
  }

  predicate NodeSite(x: Expr, e: Expr)
    decreases e, 2
  {
    match e
    case Cond(c, t, f, _) => NodeSite(x, c) || NodeSite(x, t) || NodeSite(x, f)
    case Op(_, _, ty, _) => if ty == T32 then x == e else Site(x, e)
    case _ => x == e
  }

  /** The condition of the theorem is the weakest of its kind: it holds exactly when each
      operand that survivors leave as it is reads right in every world. */
  lemma {:induction false} IntactExact(e: Expr)
    requires WellFormedOperand(e)
    ensures Intact(e) <==> forall x :: Site(x, e) ==> Sound(x)
    ensures NodeIntact(e) <==> forall x :: NodeSite(x, e) ==> Sound(x)
    decreases e, 1
  {
    hide Sound;
    if IsLeaf(e) {
      var i: nat := if e.Var? then e.id + 1 else 0;
      LeafExact(e, i, i);
      assert NodeSite(e, e);
    }
    if !IsLiteral(e) {
      assert WellFormed(e);
      match e
      case Op(_, args, _, _) =>
        forall i | 0 <= i < |args| ensures Intact(args[i]) <==> forall x :: Site(x, args[i]) ==> Sound(x) {
          IntactExact(args[i]);
        }
      case Cond(_, _, _, _) => CondIntactExact(e);
      case _ =>
    }
  }

  lemma {:induction false} CondIntactExact(e: Expr)
    requires e.Cond? && WellFormed(e)
    ensures Intact(e) <==> forall x :: Site(x, e) ==> Sound(x)
    ensures NodeIntact(e) <==> forall x :: NodeSite(x, e) ==> Sound(x)
    decreases e, 0
  {
    hide Sound, HasSelect, Static, KnownCond, SameBranches, InType, PackOperand;
    IntactExact(e.c);
    IntactExact(e.t);
    IntactExact(e.f);
  }

  /** A survivor that fails the test goes wrong in the world of zeros. */
  lemma SurvivorStrays(e: Expr, i: nat, j: nat)
    requires e.Cond? && WellFormed(e) && !Dropped(e) && !HasSelect(e.ty, TypeOf(e.c))
    requires IsLeaf(e.c) && (e.c.Var? ==> e.c.id != i && e.c.id != j) && !NodeIntact(e.c)
    requires e.t == Var(i, e.ty) && e.f == Var(j, e.ty) && i != j
    ensures Delivered(e, ZeroWorld(i, j)) != Meaning(e, ZeroWorld(i, j))
  {
    var z := ZeroWorld(i, j);
    LeafExact(e.c, i, j);
    NoHelperType(e.ty, TypeOf(e.c));
    assert TypeOf(e.c) == T32;
    VarIntact(i, e.ty);
    VarIntact(j, e.ty);
    assert Meaning(e.t, z) == 0 && Meaning(e.f, z) == 1;
    hide Delivered, Meaning, Left, NodeIntact, Dropped, HasSelect, WellFormed;
    SurvivorExact(e, z);
  }

  /** A type without a helper is neither ternary nor integral. */
  lemma NoHelperType(ty: Type, cond: Type)
    requires IsCondType(cond) && !HasSelect(ty, cond)
    ensures ty != T32 && forall v :: Norm(ty, v) == v
  {
  }

  lemma VarIntact(id: nat, ty: Type)
    requires ty != T32
    ensures Intact(Var(id, ty)) && NodeIntact(Var(id, ty))
  {
  }

  /** Where the branches are two variables the condition is the last word: lowering keeps the
      meaning in every world if and only if it holds. */
  lemma {:induction false} SurvivorIff(c: Expr, i: nat, j: nat, ty: Type, next: nat)
    requires var e := Cond(c, Var(i, ty), Var(j, ty), ty); WellFormed(e)
    requires IsLeaf(c) && !HasSelect(ty, TypeOf(c)) && i != j && (c.Var? ==> c.id != i && c.id != j)
    ensures var e := Cond(c, Var(i, ty), Var(j, ty), ty);
      Preserved(e, next) <==> Intact(e)
  {
    var e := Cond(c, Var(i, ty), Var(j, ty), ty);
    NoHelperType(ty, TypeOf(c));
    VarIntact(i, ty);
    VarIntact(j, ty);
    PreservedIff(e, next);
    assert Intact(e) <==> Dropped(e) || NodeIntact(c);
    hide Preserved, Dropped, NodeIntact, Intact, HasSelect, WellFormed;
    if Intact(e) {
      IntactDelivers(e);
    } else {
      SurvivorStrays(e, i, j);
    }
  }

  lemma IntactDelivers(e: Expr)
    requires WellFormedOperand(e) && Intact(e)
    ensures Delivers(e)
  {
    forall w: World ensures Delivered(e, w) == Meaning(e, w) {
      IntactMeans(e, w);
    }
  }

  /** The smallest failure: `x ? y : z` on a 32-trit x, where y and z have a type without a
      helper, tests the word of x, and the word of zero is not 0. */
  lemma {:induction false} SurvivorFails(next: nat)
    ensures var e := Cond(Var(0, T32), Var(1, LONG_DOUBLE), Var(2, LONG_DOUBLE), LONG_DOUBLE);
      WellFormed(e) && !Preserved(e, next)
  {
    var e := Cond(Var(0, T32), Var(1, LONG_DOUBLE), Var(2, LONG_DOUBLE), LONG_DOUBLE);
    assert WellFormedOperand(e.c) && WellFormedOperand(e.t) && WellFormedOperand(e.f);
    SurvivorIff(Var(0, T32), 1, 2, LONG_DOUBLE, next);
  }

  /** A literal 0 and a variable in the condition of a survivor: `(b ? 0 : x) ? y : z`. */
  function InnerLiteral(): Expr {
    var c := Cond(Var(0, BIT), Cst(0, T32), Var(1, T32), T32);
    Cond(c, Var(2, LONG_DOUBLE), Var(3, LONG_DOUBLE), LONG_DOUBLE)
  }

  lemma InnerLiteralShape()
    ensures WellFormed(InnerLiteral())
  {
    hide Ops.Encode;
    var e := InnerLiteral();
    assert InType(T32, 0);
    assert WellFormedOperand(e.c.c) && WellFormedOperand(e.c.t) && WellFormedOperand(e.c.f);
  }

  lemma InnerLiteralSurvives()
    ensures var e := InnerLiteral(); !Dropped(e) && !HasSelect(e.ty, TypeOf(e.c))
  {
    var e := InnerLiteral();
    hide PackConstant, StaticNode;
    StaticCond(e.c);
    assert Static(e.c.c) == Some(e.c.c);
    assert Static(e.c.f) == Some(e.c.f);
    assert Static(e.c) == None;
  }

  /** The literal, which is left raw, reads right; the variable may not. */
  lemma InnerLiteralExact(w: World)
    ensures var e := InnerLiteral(); var x := Norm(T32, w.vars(1));
      Delivered(e, w) == Meaning(e, w) <==>
        Norm(BIT, w.vars(0)) != 0 || (x != 0 <==> Holds(T32, x)) || w.vars(2) == w.vars(3)
  {
    var e := InnerLiteral();
    InnerLiteralShape();
    InnerLiteralSurvives();
    VarIntact(2, LONG_DOUBLE);
    VarIntact(3, LONG_DOUBLE);
    SurvivorExact(e, w);
    ZeroWord();
    UnpackPack(0, 32);
    assert PackOperand(e.c.t).value == ZERO_WORD;
    hide Ops.Encode, Ops.Decode, Dropped, HasSelect, WellFormed, PackConstant;
  }

  /** A literal left raw in a condition reads right, unless it was refused and is a word for
      zero. */
  lemma LiteralTest(e: Expr)
    requires IsLiteral(e)
    ensures NodeIntact(e) <==> InRange(e.value, 32) || Ops.Decode(e.value, 32) != 0
  {
    hide Ops.Decode, Ops.Encode, Pow2;
    LiteralWord(e);
    if InRange(e.value, 32) {
      WordLaws.RoundTripValue(e.value, 32);
    } else {
      assert e.value != 0;
    }
  }
}
