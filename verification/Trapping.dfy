/** Which operations run. A select helper receives both branches already evaluated, so the
    lowered code performs every operation of both, where the conditional performed those of
    one. `traps` says which operations fail on which arguments. */
module Trapping {
  import opened Wrappers
  import opened Constants
  import opened Lowering
  import opened Residue
  import opened Preservation
  import Ops = PackedOps

  type Traps = (nat, seq<int>) -> bool

  /** No operation of the source traps, in either branch of any conditional. */
  predicate Strict(e: Expr, w: World, traps: Traps)
    decreases e
  {
    match e
    case Op(code, args, _, _) =>
      (forall i :: 0 <= i < |args| ==> Strict(args[i], w, traps)) && !traps(code, Meanings(args, w))
    case Convert(a) => Strict(a, w, traps)
    case Cond(c, t, f, _) => Strict(c, w, traps) && Strict(t, w, traps) && Strict(f, w, traps)
    case _ => true
  }

  /** No operation the source performs traps: of a conditional, only the taken branch. */
  predicate Lazy(e: Expr, w: World, traps: Traps)
    decreases e
  {
    match e
    case Op(code, args, _, _) =>
      (forall i :: 0 <= i < |args| ==> Lazy(args[i], w, traps)) && !traps(code, Meanings(args, w))
    case Convert(a) => Lazy(a, w, traps)
    case Cond(c, t, f, _) =>
      Lazy(c, w, traps) &&
      if Holds(TypeOf(c), Meaning(c, w)) then Lazy(t, w, traps) else Lazy(f, w, traps)
    case _ => true
  }

  /** Evaluating an expression at run time does not trap. */
  predicate Safe(e: Expr, w: World, tmps: Temps, traps: Traps)
    decreases e
  {
    match e
    case Op(code, args, _, _) =>
      (forall i :: 0 <= i < |args| ==> Safe(args[i], w, tmps, traps)) && !traps(code, Evals(args, w, tmps))
    case Convert(a) => Safe(a, w, tmps, traps)
    case Cond(c, t, f, _) =>
      Safe(c, w, tmps, traps) &&
      if Eval(c, w, tmps) != 0 then Safe(t, w, tmps, traps) else Safe(f, w, tmps, traps)
    case _ => true
  }

  predicate SafeStmt(s: Stmt, w: World, tmps: Temps, traps: Traps) {
    match s
    case CallTt2b(_, arg) => Safe(arg, w, tmps, traps)
    case CallSelect(_, c, t, f) => Safe(c, w, tmps, traps) && Safe(t, w, tmps, traps) && Safe(f, w, tmps, traps)
  }

  /** Running statements one after the other does not trap. */
  predicate SafeRun(ss: seq<Stmt>, w: World, tmps: Temps, traps: Traps) {
    ss == [] || (SafeStmt(ss[0], w, tmps, traps) && SafeRun(ss[1..], w, Run(ss[0], w, tmps), traps))
  }

  lemma {:induction false} SafeAppend(a: seq<Stmt>, b: seq<Stmt>, w: World, tmps: Temps, traps: Traps)
    ensures SafeRun(a + b, w, tmps, traps)
       <==> SafeRun(a, w, tmps, traps) && SafeRun(b, w, RunAll(a, w, tmps), traps)
  {
    if a == [] {
      assert a + b == b;
    } else {
      assert (a + b)[1..] == a[1..] + b;
      SafeAppend(a[1..], b, w, Run(a[0], w, tmps), traps);
    }
  }

  lemma {:induction false} SafeFrame(e: Expr, w: World, x: Temps, y: Temps, lo: nat, hi: nat, traps: Traps)
    requires Within(e, lo, hi) && Agree(x, y, hi)
    ensures Safe(e, w, x, traps) <==> Safe(e, w, y, traps)
  {
    match e
    case Op(_, args, _, _) =>
      EvalsFrame(args, w, x, y, lo, hi);
      forall i | 0 <= i < |args| ensures Safe(args[i], w, x, traps) <==> Safe(args[i], w, y, traps) {
        SafeFrame(args[i], w, x, y, lo, hi, traps);
      }
    case Convert(a) => SafeFrame(a, w, x, y, lo, hi, traps);
    case Cond(c, t, f, _) =>
      EvalFrame(c, w, x, y, lo, hi);
      SafeFrame(c, w, x, y, lo, hi, traps);
      SafeFrame(t, w, x, y, lo, hi, traps);
      SafeFrame(f, w, x, y, lo, hi, traps);
    case _ =>
  }

  // What the lowered code performs, read off the source

  /** The statements emitted for e do not trap: those of its operands do not and, unless the
      conditional is dropped, neither do the arguments of its own helper calls. */
  predicate Exec(e: Expr, w: World, traps: Traps)
    decreases e
  {
    match e
    case Op(_, args, _, _) => forall i :: 0 <= i < |args| ==> Exec(args[i], w, traps)
    case Cond(c, t, f, ty) =>
      Exec(c, w, traps) && Exec(t, w, traps) && Exec(f, w, traps) &&
      (Dropped(e) ||
       if HasSelect(ty, TypeOf(c)) then Resid(c, w, traps) && Resid(t, w, traps) && Resid(f, w, traps)
       else TypeOf(c).Ternary? ==> Resid(c, w, traps))
    case _ => true
  }

  /** What e becomes does not trap. */
  predicate Resid(e: Expr, w: World, traps: Traps)
    decreases e, 1
  {
    match e
    case Op(code, args, _, _) =>
      (forall i :: 0 <= i < |args| ==> Resid(args[i], w, traps)) && !traps(code, Delivereds(args, w))
    case Cond(c, t, f, ty) =>
      if Dropped(e) then Resid(Branch(e), w, traps)
      else HasSelect(ty, TypeOf(c)) ||
           (NodeSafe(c, w, traps) && if Left(c, w) != 0 then NodeSafe(t, w, traps) else NodeSafe(f, w, traps))
    case _ => true
  }

  /** The node e leaves behind does not trap; it performs the taken branches only. */
  predicate NodeSafe(e: Expr, w: World, traps: Traps)
    decreases e, 2
  {
    match e
    case Cond(c, t, f, _) =>
      NodeSafe(c, w, traps) && if Left(c, w) != 0 then NodeSafe(t, w, traps) else NodeSafe(f, w, traps)
    case _ => Resid(e, w, traps)
  }

  /** In a state: the operand and the node are safe exactly when predicted. */
  ghost predicate Predicted(e: Expr, l: Lowered<Expr>, node: Expr, w: World, tmps: Temps, traps: Traps) {
    && (Safe(PackOperand(l.result), w, tmps, traps) <==> Resid(e, w, traps))
    && (Safe(node, w, tmps, traps) <==> NodeSafe(e, w, traps))
  }

  /** Later statements do not change it. */
  lemma PredictedKept(e: Expr, l: Lowered<Expr>, node: Expr, next: nat, more: seq<Stmt>, hi: nat,
                      w: World, tmps: Temps, traps: Traps)
    requires Shaped(e, l, node, next) && Predicted(e, l, node, w, tmps, traps) && Writes(more, l.next, hi)
    ensures Predicted(e, l, node, w, RunAll(more, w, tmps), traps)
  {
    RunFrame(more, l.next, hi, w, tmps);
    SafeFrame(PackOperand(l.result), w, tmps, RunAll(more, w, tmps), next, l.next, traps);
    SafeFrame(node, w, tmps, RunAll(more, w, tmps), next, l.next, traps);
  }

  lemma SafeOne(s: Stmt, w: World, tmps: Temps, traps: Traps)
    ensures SafeRun([s], w, tmps, traps) <==> SafeStmt(s, w, tmps, traps)
    ensures RunAll([s], w, tmps) == Run(s, w, tmps)
  {
  }

  lemma SafeNone(w: World, tmps: Temps, traps: Traps)
    ensures SafeRun([], w, tmps, traps) && RunAll([], w, tmps) == tmps
  {
  }

  /** tt2b performs the condition; select performs all three operands. */
  lemma SelectPerforms(ty: Type, kept: Expr, c: Expr, t: Expr, f: Expr, lo: nat, next: nat,
                       w: World, tmps: Temps, traps: Traps)
    requires Within(t, lo, next) && Within(f, lo, next)
    requires KnownZero(c).None? && t != f && HasSelect(ty, TypeOf(c))
    ensures var r := Choose(ty, kept, c, t, f, next);
      && (SafeRun(r.stmts, w, tmps, traps) <==>
            Safe(c, w, tmps, traps) && Safe(t, w, tmps, traps) && Safe(f, w, tmps, traps))
      && forall s: Temps :: Safe(r.result, w, s, traps)
  {
    hide KnownZero, Eval, Tt2b, HasSelect, Within;
    if TypeOf(c).Ternary? {
      var first, call := CallTt2b(next, c), CallSelect(next + 1, Tmp(next, LONG_LONG), t, f);
      var tmps' := Run(first, w, tmps);
      SafeFrame(t, w, tmps, tmps', lo, next, traps);
      SafeFrame(f, w, tmps, tmps', lo, next, traps);
      SafeOne(first, w, tmps, traps);
      SafeOne(call, w, tmps', traps);
      SafeAppend([first], [call], w, tmps, traps);
    } else {
      var call := CallSelect(next, LongCond(c), t, f);
      SafeOne(call, w, tmps, traps);
      assert [] + [call] == [call];
    }
  }

  /** Without a helper tt2b may still be called; the node is performed where it stands. */
  lemma KeptPerforms(ty: Type, kept: Expr, c: Expr, t: Expr, f: Expr, lo: nat, next: nat,
                     w: World, tmps: Temps, traps: Traps)
    requires Within(kept, lo, next)
    requires KnownZero(c).None? && t != f && !HasSelect(ty, TypeOf(c))
    ensures var r := Choose(ty, kept, c, t, f, next);
      && (SafeRun(r.stmts, w, tmps, traps) <==> (TypeOf(c).Ternary? ==> Safe(c, w, tmps, traps)))
      && (Safe(r.result, w, RunAll(r.stmts, w, tmps), traps) <==> Safe(kept, w, tmps, traps))
  {
    hide KnownZero, Eval, Tt2b, HasSelect, Within, Safe;
    var r := Choose(ty, kept, c, t, f, next);
    SafeOne(CallTt2b(next, c), w, tmps, traps);
    SafeNone(w, tmps, traps);
    RunFrame(r.stmts, next, r.next, w, tmps);
    SafeFrame(kept, w, tmps, RunAll(r.stmts, w, tmps), lo, next, traps);
  }

  /** The operands of a conditional, after all three were lowered and run. */
  lemma {:induction false} OperandsPredicted(e: Expr, next: nat, w: World, tmps: Temps, traps: Traps)
    requires e.Cond? && WellFormed(e)
    ensures var p := StepsOf(e, next); var s := OperandsRun(p, w, tmps);
      Predicted(e.c, p.c, Node(e.c, next), w, s, traps) && Predicted(e.t, p.t, Node(e.t, p.c.next), w, s, traps) &&
      Predicted(e.f, p.f, Node(e.f, p.t.next), w, s, traps)
    ensures var p := StepsOf(e, next);
      SafeRun(p.c.stmts + p.t.stmts + p.f.stmts, w, tmps, traps) <==>
        Exec(e.c, w, traps) && Exec(e.t, w, traps) && Exec(e.f, w, traps)
    decreases e, 0
  {
    var p := StepsOf(e, next);
    var s1 := RunAll(p.c.stmts, w, tmps);
    var s2 := RunAll(p.t.stmts, w, s1);
    CondShape(e, next);
    TrapsPredicted(e.c, next, w, tmps, traps);
    TrapsPredicted(e.t, p.c.next, w, s1, traps);
    TrapsPredicted(e.f, p.t.next, w, s2, traps);
    hide Lower, Node, Choose, RunAll, Predicted, Clean, Within, WellFormed, Exec, SafeRun;
    PredictedKept(e.c, p.c, Node(e.c, next), next, p.t.stmts, p.t.next, w, s1, traps);
    PredictedKept(e.c, p.c, Node(e.c, next), next, p.f.stmts, p.f.next, w, s2, traps);
    PredictedKept(e.t, p.t, Node(e.t, p.c.next), p.c.next, p.f.stmts, p.f.next, w, s2, traps);
    SafeAppend(p.c.stmts + p.t.stmts, p.f.stmts, w, tmps, traps);
    SafeAppend(p.c.stmts, p.t.stmts, w, tmps, traps);
    RunAppend(p.c.stmts, p.t.stmts, w, tmps);
  }

  /** The main theorem on traps, for every well-formed operand: whether the emitted statements
      trap, and whether what is left of the expression does, is decided by the source. */
  lemma {:induction false} TrapsPredicted(e: Expr, next: nat, w: World, tmps: Temps, traps: Traps)
    requires WellFormedOperand(e)
    ensures var l := Lower(e, next);
      && (SafeRun(l.stmts, w, tmps, traps) <==> Exec(e, w, traps))
      && Predicted(e, l, Node(e, next), w, RunAll(l.stmts, w, tmps), traps)
    decreases e, 2
  {
    if IsLiteral(e) {
      LiteralWord(e);
    } else {
      assert WellFormed(e);
      match e
      case Op(_, args, _, _) =>
        LowerOp(e, next);
        ArgsPredicted(args, next, w, tmps, traps);
        ArgsDeliver(args, next, w, tmps);
      case Cond(_, _, _, _) => CondPredicted(e, next, w, tmps, traps);
      case _ =>
    }
  }

  lemma {:induction false} CondPredicted(e: Expr, next: nat, w: World, tmps: Temps, traps: Traps)
    requires e.Cond? && WellFormed(e)
    ensures var l := Lower(e, next);
      && (SafeRun(l.stmts, w, tmps, traps) <==> Exec(e, w, traps))
      && Predicted(e, l, Node(e, next), w, RunAll(l.stmts, w, tmps), traps)
    decreases e, 1
  {
    var p := StepsOf(e, next);
    var s := OperandsRun(p, w, tmps);
    CondShape(e, next);
    CondStatic(e, next);
    OperandsPredicted(e, next, w, tmps, traps);
    OperandsWorth(e, next, w, tmps);
    LowerCond(e, next);
    RunSteps(p, w, tmps);
    RunFrame(p.own.stmts, p.f.next, p.own.next, w, s);
    SafeFrame(Node(e, next), w, s, RunAll(p.own.stmts, w, s), next, p.f.next, traps);
    SafeAppend(p.c.stmts + p.t.stmts + p.f.stmts, p.own.stmts, w, tmps, traps);
    OperandsRunAll(p, w, tmps);
    OwnPredicted(e, next, w, s, traps);
  }

  /** A conditional's own statements, and what they leave. */
  lemma OwnPredicted(e: Expr, next: nat, w: World, s: Temps, traps: Traps)
    requires e.Cond? && WellFormed(e)
    requires var p := StepsOf(e, next);
      && OwnShaped(p, Node(e, next), next)
      && KnownCond(e) == KnownZero(p.Cond()) && (SameBranches(e) <==> p.Then() == p.Else())
      && TypeOf(p.Cond()) == TypeOf(e.c)
      && Predicted(e.c, p.c, Node(e.c, next), w, s, traps) && Predicted(e.t, p.t, Node(e.t, p.c.next), w, s, traps)
      && Predicted(e.f, p.f, Node(e.f, p.t.next), w, s, traps)
      && (Safe(Node(e, next), w, s, traps) <==> NodeSafe(e, w, traps))
    ensures var p := StepsOf(e, next);
      && (SafeRun(p.own.stmts, w, s, traps) <==>
            Dropped(e) ||
            if HasSelect(e.ty, TypeOf(e.c)) then Resid(e.c, w, traps) && Resid(e.t, w, traps) && Resid(e.f, w, traps)
            else TypeOf(e.c).Ternary? ==> Resid(e.c, w, traps))
      && (Safe(p.own.result, w, RunAll(p.own.stmts, w, s), traps) <==> Resid(e, w, traps))
  {
    var p := StepsOf(e, next);
    hide Lower, Node, Static, Within, HasSelect, KnownZero, PackOperand, Writes, Safe, WellFormed, Left;
    if !Dropped(e) {
      hide Choose;
      if HasSelect(e.ty, TypeOf(e.c)) {
        SelectPerforms(e.ty, Node(e, next), p.Cond(), p.Then(), p.Else(), next, p.f.next, w, s, traps);
      } else {
        KeptPerforms(e.ty, Node(e, next), p.Cond(), p.Then(), p.Else(), next, p.f.next, w, s, traps);
      }
    }
  }

  lemma OperandsRunAll(p: Steps, w: World, tmps: Temps)
    ensures RunAll(p.c.stmts + p.t.stmts + p.f.stmts, w, tmps) == OperandsRun(p, w, tmps)
  {
    RunAppend(p.c.stmts + p.t.stmts, p.f.stmts, w, tmps);
    RunAppend(p.c.stmts, p.t.stmts, w, tmps);
  }

  lemma {:induction false} ArgsPredicted(es: seq<Expr>, next: nat, w: World, tmps: Temps, traps: Traps)
    requires forall i :: 0 <= i < |es| ==> WellFormed(es[i])
    ensures var l := LowerArgs(es, next);
      && (SafeRun(l.stmts, w, tmps, traps) <==> forall i :: 0 <= i < |es| ==> Exec(es[i], w, traps))
      && forall i :: 0 <= i < |es| ==>
           (Safe(l.result[i], w, RunAll(l.stmts, w, tmps), traps) <==> Resid(es[i], w, traps))
    decreases es, 0
  {
    if es != [] {
      var h := Lower(es[0], next);
      var r := LowerArgs(es[1..], h.next);
      LowerShape(es[0], next);
      LowerArgsShape(es[1..], h.next);
      TrapsPredicted(es[0], next, w, tmps, traps);
      PredictedKept(es[0], h, Node(es[0], next), next, r.stmts, r.next, w, RunAll(h.stmts, w, tmps), traps);
      ArgsPredicted(es[1..], h.next, w, RunAll(h.stmts, w, tmps), traps);
      RunAppend(h.stmts, r.stmts, w, tmps);
      SafeAppend(h.stmts, r.stmts, w, tmps, traps);
      var l := LowerArgs(es, next);
      assert l.result == [h.result] + r.result;
      hide Lower, LowerArgs, Safe, SafeRun, Exec, Resid, Shaped, WellFormed, RunAll;
      forall i | 0 <= i < |es|
        ensures Safe(l.result[i], w, RunAll(l.stmts, w, tmps), traps) <==> Resid(es[i], w, traps)
      {
        assert i > 0 ==> l.result[i] == r.result[i - 1] && es[i] == es[1..][i - 1];
      }
      AllExec(es, w, traps);
    }
  }

  lemma AllExec(es: seq<Expr>, w: World, traps: Traps)
    requires es != []
    ensures (forall i :: 0 <= i < |es| ==> Exec(es[i], w, traps)) <==>
      Exec(es[0], w, traps) && forall i :: 0 <= i < |es[1..]| ==> Exec(es[1..][i], w, traps)
  {
    hide Exec;
    assert es == [es[0]] + es[1..];
    assert forall i :: 0 <= i < |es[1..]| ==> es[1..][i] == es[i + 1];
  }

  // Compared with the source's own operations

  /** Neither the emitted statements nor what is left of the expression trap. */
  ghost predicate TrapFree(e: Expr, next: nat, w: World, tmps: Temps, traps: Traps) {
    var l := Lower(e, next);
    SafeRun(l.stmts, w, tmps, traps) && Safe(l.result, w, RunAll(l.stmts, w, tmps), traps)
  }

  lemma TrapFreeExact(e: Expr, next: nat, w: World, tmps: Temps, traps: Traps)
    requires WellFormed(e)
    ensures TrapFree(e, next, w, tmps, traps) <==> Exec(e, w, traps) && Resid(e, w, traps)
  {
    LowerShape(e, next);
    TrapsPredicted(e, next, w, tmps, traps);
  }

  /** No conditional, dropped branches included, misreads its condition. */
  predicate Whole(e: Expr)
    decreases e
  {
    match e
    case Op(_, args, _, _) => forall i :: 0 <= i < |args| ==> Whole(args[i])
    case Cond(c, t, f, _) => Whole(c) && Whole(t) && Whole(f) && Intact(e)
    case _ => true
  }

  lemma {:induction false} WholeIntact(e: Expr)
    requires Whole(e)
    ensures Intact(e)
  {
    match e
    case Op(_, args, _, _) =>
      forall i | 0 <= i < |args| ensures Intact(args[i]) {
        WholeIntact(args[i]);
      }
    case _ =>
  }

  lemma {:induction false} HelpedWhole(e: Expr)
    requires Helped(e)
    ensures Whole(e)
  {
    match e
    case Op(_, args, _, _) =>
      forall i | 0 <= i < |args| ensures Whole(args[i]) {
        HelpedWhole(args[i]);
      }
    case Cond(c, t, f, _) =>
      HelpedWhole(c);
      HelpedWhole(t);
      HelpedWhole(f);
      HelpedIntact(e);
    case _ =>
  }

  lemma {:induction false} StrictPerforms(e: Expr, w: World, traps: Traps)
    requires WellFormedOperand(e) && Whole(e) && Strict(e, w, traps)
    ensures Exec(e, w, traps) && Resid(e, w, traps) && NodeSafe(e, w, traps)
    decreases e
  {
    if !IsLiteral(e) {
      assert WellFormed(e);
      match e
      case Op(_, args, _, _) =>
        forall i | 0 <= i < |args| ensures Exec(args[i], w, traps) && Resid(args[i], w, traps) && Intact(args[i]) {
          StrictPerforms(args[i], w, traps);
          WholeIntact(args[i]);
        }
        ArgsMean(args, w);
      case Cond(c, t, f, _) =>
        StrictPerforms(c, w, traps);
        StrictPerforms(t, w, traps);
        StrictPerforms(f, w, traps);
      case _ =>
    }
  }

  /** If no operation of the source traps, in taken and untaken branches alike, the lowered
      code does not trap. */
  lemma {:induction false} StrictIsSafe(e: Expr, next: nat, w: World, tmps: Temps, traps: Traps)
    requires WellFormed(e) && Strict(e, w, traps) && Whole(e)
    ensures TrapFree(e, next, w, tmps, traps)
  {
    StrictPerforms(e, w, traps);
    TrapFreeExact(e, next, w, tmps, traps);
  }

  /** Every conditional gets its select: it has a helper and is not dropped. */
  predicate Plain(e: Expr)
    decreases e
  {
    match e
    case Op(_, args, _, _) => forall i :: 0 <= i < |args| ==> Plain(args[i])
    case Cond(c, t, f, ty) => Plain(c) && Plain(t) && Plain(f) && HasSelect(ty, TypeOf(c)) && !Dropped(e)
    case _ => true
  }

  lemma {:induction false} PlainHelped(e: Expr)
    requires Plain(e)
    ensures Helped(e)
  {
    match e
    case Op(_, args, _, _) =>
      forall i | 0 <= i < |args| ensures Helped(args[i]) {
        PlainHelped(args[i]);
      }
    case Cond(c, t, f, _) =>
      PlainHelped(c);
      PlainHelped(t);
      PlainHelped(f);
    case _ =>
  }

  lemma {:induction false} PlainPerforms(e: Expr, w: World, traps: Traps)
    requires WellFormedOperand(e) && Plain(e) && Exec(e, w, traps) && Resid(e, w, traps)
    ensures Strict(e, w, traps)
    decreases e
  {
    if !IsLiteral(e) {
      assert WellFormed(e);
      match e
      case Op(_, args, _, _) =>
        forall i | 0 <= i < |args| ensures Strict(args[i], w, traps) && Intact(args[i]) {
          PlainPerforms(args[i], w, traps);
          PlainHelped(args[i]);
          HelpedIntact(args[i]);
        }
        ArgsMean(args, w);
      case Cond(c, t, f, _) =>
        PlainPerforms(c, w, traps);
        PlainPerforms(t, w, traps);
        PlainPerforms(f, w, traps);
      case _ =>
    }
  }

  /** When every conditional gets its select the lowered code is free of traps exactly when
      both branches of every conditional are. */
  lemma {:induction false} SafeIffStrict(e: Expr, next: nat, w: World, tmps: Temps, traps: Traps)
    requires WellFormed(e) && Plain(e)
    ensures TrapFree(e, next, w, tmps, traps) <==> Strict(e, w, traps)
  {
    TrapFreeExact(e, next, w, tmps, traps);
    PlainHelped(e);
    HelpedWhole(e);
    if TrapFree(e, next, w, tmps, traps) {
      PlainPerforms(e, w, traps);
    }
    if Strict(e, w, traps) {
      StrictIsSafe(e, next, w, tmps, traps);
    }
  }

  // The pass's counters

  lemma ChooseSelects(ty: Type, kept: Expr, c: Expr, t: Expr, f: Expr, next: nat)
    ensures Selects(Choose(ty, kept, c, t, f, next).stmts)
         == if KnownZero(c).None? && t != f && HasSelect(ty, TypeOf(c)) then 1 else 0
  {
    hide KnownZero, HasSelect;
    var arg := if TypeOf(c).Ternary? then Tmp(next, LONG_LONG) else LongCond(c);
    var first := CallTt2b(next, c);
    SelectsOne(first);
    var call0, call1 := CallSelect(next, arg, t, f), CallSelect(next + 1, arg, t, f);
    SelectsOne(call0);
    SelectsOne(call1);
    SelectsAppend([first], [call1]);
    SelectsAppend([], [call0]);
  }

  /** The pass emits at most as many selects as it visits conditionals, and as many exactly
      when every conditional gets one. */
  lemma {:induction false} CountersAlike(e: Expr, next: nat)
    requires WellFormedOperand(e)
    ensures Selects(Lower(e, next).stmts) <= Visited(e)
    ensures Selects(Lower(e, next).stmts) == Visited(e) <==> Plain(e)
    decreases e, 2
  {
    if !IsLiteral(e) {
      assert WellFormed(e);
      match e
      case Op(_, args, _, _) =>
        NoEffects(e);
        LowerOp(e, next);
        ArgsCounters(args, next);
      case Cond(c, t, f, _) => CondCounters(e, next);
      case _ =>
    }
  }

  lemma {:induction false} CondCounters(e: Expr, next: nat)
    requires e.Cond? && WellFormed(e)
    ensures Selects(Lower(e, next).stmts) <= Visited(e)
    ensures Selects(Lower(e, next).stmts) == Visited(e) <==> Plain(e)
    decreases e, 1
  {
    var p := StepsOf(e, next);
    CondShape(e, next);
    CondStatic(e, next);
    CountersAlike(e.c, next);
    CountersAlike(e.t, p.c.next);
    CountersAlike(e.f, p.t.next);
    LowerCond(e, next);
    hide Lower, Node, Choose, PackOperand, KnownZero, HasSelect, Static, Within, Writes, WellFormed;
    ChooseSelects(e.ty, Node(e, next), p.Cond(), p.Then(), p.Else(), p.f.next);
    SelectsAppend(p.c.stmts + p.t.stmts + p.f.stmts, p.own.stmts);
    SelectsAppend(p.c.stmts + p.t.stmts, p.f.stmts);
    SelectsAppend(p.c.stmts, p.t.stmts);
  }

  lemma {:induction false} ArgsCounters(es: seq<Expr>, next: nat)
    requires forall i :: 0 <= i < |es| ==> WellFormed(es[i])
    ensures Selects(LowerArgs(es, next).stmts) <= VisitedArgs(es)
    ensures Selects(LowerArgs(es, next).stmts) == VisitedArgs(es) <==> forall i :: 0 <= i < |es| ==> Plain(es[i])
    decreases es, 0
  {
    if es != [] {
      var h := Lower(es[0], next);
      CountersAlike(es[0], next);
      ArgsCounters(es[1..], h.next);
      SelectsAppend(h.stmts, LowerArgs(es[1..], h.next).stmts);
      assert es == [es[0]] + es[1..];
      assert forall i :: 0 <= i < |es[1..]| ==> es[1..][i] == es[i + 1];
    }
  }

  // Neither the taken branches alone, nor all of them

  /** `x ? op() : 0`, where op is an operation without operands. */
  function Guarded(): Expr {
    Cond(Var(0, BIT), Op(0, [], BIT, false), Cst(0, BIT), BIT)
  }

  /** `1 ? x : op()`. */
  function Decided(): Expr {
    Cond(Cst(1, BIT), Var(0, BIT), Op(0, [], BIT, false), BIT)
  }

  lemma GuardedTraps(next: nat, w: World, tmps: Temps, traps: Traps)
    requires traps(0, [])
    ensures WellFormed(Guarded()) && !TrapFree(Guarded(), next, w, tmps, traps)
  {
    var e := Guarded();
    assert Static(e.c) == Some(e.c) && Static(e.t) == Some(e.t) && Static(e.f) == Some(e.f);
    assert WellFormedOperand(e.c) && WellFormedOperand(e.t) && WellFormedOperand(e.f);
    assert !Resid(e.t, w, traps);
    TrapFreeExact(e, next, w, tmps, traps);
  }

  lemma GuardedLazy(w: World, traps: Traps)
    requires w.vars(0) == 0
    ensures Lazy(Guarded(), w, traps)
  {
    assert Meaning(Var(0, BIT), w) == Norm(BIT, 0) == 0;
  }

  /** Not trapping in the taken branches is not enough: with x zero, `x ? op() : 0` does not
      perform op, and its lowering does. */
  lemma LazyIsNotSafe()
    ensures exists e: Expr, w: World, traps: Traps ::
      WellFormed(e) && Lazy(e, w, traps) && !TrapFree(e, 0, w, map[], traps)
  {
    hide *;
    var w := World((id: nat) => 0, (code: nat, vs: seq<int>) => 0);
    var traps: Traps := (code: nat, vs: seq<int>) => true;
    GuardedTraps(0, w, map[], traps);
    GuardedLazy(w, traps);
  }

  /** Not trapping in either branch is not needed: `1 ? x : op()` never performs op. */
  lemma SafeIsNotStrict(next: nat, w: World, tmps: Temps, traps: Traps)
    requires traps(0, [])
    ensures WellFormed(Decided()) && TrapFree(Decided(), next, w, tmps, traps) && !Strict(Decided(), w, traps)
  {
    var e := Decided();
    assert Static(e.c) == Some(e.c);
    assert WellFormedOperand(e.c) && WellFormedOperand(e.t) && WellFormedOperand(e.f);
    assert !Strict(e.f, w, traps);
    TrapFreeExact(e, next, w, tmps, traps);
  }
}
