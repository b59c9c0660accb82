/** Side effects: the pass leaves a side-effecting operator as it found it, wherever a
    conditional puts it. */
module Guarding {
  import opened Wrappers
  import opened Constants
  import opened Lowering

  /** x is e or stands somewhere in it. */
  predicate Inside(x: Expr, e: Expr)
    decreases e
  {
    x == e ||
    match e
    case Op(_, args, _, _) => exists i :: 0 <= i < |args| && Inside(x, args[i])
    case Convert(a) => Inside(x, a)
    case Cond(c, t, f, _) => Inside(x, c) || Inside(x, t) || Inside(x, f)
    case _ => false
  }

  /** The search for a conditional finds one wherever it stands, and an operator has side
      effects exactly when something in it does. */
  lemma {:induction false} SearchExact(e: Expr)
    ensures HasCond(e) <==> exists x: Expr :: x.Cond? && Inside(x, e)
    ensures SideEffects(e) <==> exists x: Expr :: x.Op? && x.effect && Inside(x, e)
  {
    assert Inside(e, e);
    match e
    case Op(_, args, _, _) =>
      forall i | 0 <= i < |args|
        ensures HasCond(args[i]) <==> exists x: Expr :: x.Cond? && Inside(x, args[i])
        ensures SideEffects(args[i]) <==> exists x: Expr :: x.Op? && x.effect && Inside(x, args[i])
      {
        SearchExact(args[i]);
      }
    case Convert(a) => SearchExact(a);
    case Cond(c, t, f, _) =>
      SearchExact(c);
      SearchExact(t);
      SearchExact(f);
    case _ =>
  }

  /** The outermost side-effecting operators of e, which are not themselves conditionals. */
  function Guards(e: Expr): set<Expr>
    decreases e
  {
    if e.Cond? then Guards(e.c) + Guards(e.t) + Guards(e.f)
    else if SideEffects(e) then {e}
    else {}
  }

  lemma {:induction false} GuardsNone(e: Expr)
    ensures Guards(e) == {} <==> !SideEffects(e)
  {
    if e.Cond? {
      GuardsNone(e.c);
      GuardsNone(e.t);
      GuardsNone(e.f);
    }
  }

  /** The side-effecting operators among the operands of a helper call are all in g. The
      condition may stand under a conversion of its own. */
  predicate CallKeeps(s: Stmt, g: set<Expr>) {
    match s
    case CallTt2b(_, arg) => Guards(arg) <= g
    case CallSelect(_, c, t, f) =>
      (Guards(c) <= g || (c.Convert? && Guards(c.arg) <= g)) && Guards(t) <= g && Guards(f) <= g
  }

  predicate CallsKeep(ss: seq<Stmt>, g: set<Expr>) {
    forall s :: s in ss ==> CallKeeps(s, g)
  }

  lemma CallsKeepMore(ss: seq<Stmt>, g: set<Expr>, h: set<Expr>)
    requires CallsKeep(ss, g) && g <= h
    ensures CallsKeep(ss, h)
  {
  }

  lemma CallsKeepAppend(a: seq<Stmt>, b: seq<Stmt>, g: set<Expr>)
    ensures CallsKeep(a + b, g) <==> CallsKeep(a, g) && CallsKeep(b, g)
  {
    assert forall s :: s in a + b <==> s in a || s in b;
  }

  lemma PackedGuards(e: Expr)
    ensures Guards(PackOperand(e)) == Guards(e)
  {
  }

  lemma ChooseKeeps(ty: Type, kept: Expr, c: Expr, t: Expr, f: Expr, next: nat, g: set<Expr>)
    requires Guards(kept) <= g && Guards(c) <= g && Guards(t) <= g && Guards(f) <= g
    ensures var r := Choose(ty, kept, c, t, f, next);
      Guards(r.result) <= g && CallsKeep(r.stmts, g)
  {
    hide KnownZero, HasSelect;
  }

  /** No conditional beneath a side-effecting operator is ever replaced, at any depth and for
      any expression: every such operator in the result or in an emitted call is one of the
      source, whole; and the node keeps exactly those of the source. */
  lemma {:induction false} GuardsKept(e: Expr, next: nat)
    ensures var l := Lower(e, next);
      Guards(l.result) <= Guards(e) && CallsKeep(l.stmts, Guards(e)) && Guards(Node(e, next)) == Guards(e)
    decreases e, 2
  {
    if e.Cond? {
      CondGuards(e, next);
    } else if SideEffects(e) {
      GuardedUntouched(e, next);
    } else {
      match e
      case Op(_, args, _, _) => ArgsGuards(args, next);
      case Convert(a) =>
        GuardsKept(a, next);
        GuardsNone(a);
        GuardsNone(Lower(a, next).result);
      case _ =>
    }
  }

  lemma {:induction false} CondGuards(e: Expr, next: nat)
    requires e.Cond?
    ensures var l := Lower(e, next);
      Guards(l.result) <= Guards(e) && CallsKeep(l.stmts, Guards(e)) && Guards(Node(e, next)) == Guards(e)
    decreases e, 1
  {
    var p := StepsOf(e, next);
    LowerCond(e, next);
    GuardsKept(e.c, next);
    GuardsKept(e.t, p.c.next);
    GuardsKept(e.f, p.t.next);
    PackedGuards(p.c.result);
    PackedGuards(p.t.result);
    PackedGuards(p.f.result);
    hide Lower, Node, Choose, PackOperand, CallsKeep;
    CallsKeepMore(p.c.stmts, Guards(e.c), Guards(e));
    CallsKeepMore(p.t.stmts, Guards(e.t), Guards(e));
    CallsKeepMore(p.f.stmts, Guards(e.f), Guards(e));
    CallsKeepAppend(p.c.stmts, p.t.stmts, Guards(e));
    CallsKeepAppend(p.c.stmts + p.t.stmts, p.f.stmts, Guards(e));
    CallsKeepAppend(p.c.stmts + p.t.stmts + p.f.stmts, p.own.stmts, Guards(e));
    ChooseKeeps(e.ty, Node(e, next), p.Cond(), p.Then(), p.Else(), p.f.next, Guards(e));
  }

  lemma {:induction false} ArgsGuards(es: seq<Expr>, next: nat)
    requires forall i :: 0 <= i < |es| ==> !SideEffects(es[i])
    ensures var l := LowerArgs(es, next);
      (forall i :: 0 <= i < |es| ==> !SideEffects(l.result[i])) && CallsKeep(l.stmts, {})
    decreases es, 0
  {
    if es != [] {
      var h := Lower(es[0], next);
      var r := LowerArgs(es[1..], h.next);
      GuardsKept(es[0], next);
      GuardsNone(es[0]);
      GuardsNone(h.result);
      ArgsGuards(es[1..], h.next);
      var l := LowerArgs(es, next);
      forall i | 0 <= i < |es| ensures !SideEffects(l.result[i]) {
        assert i > 0 ==> l.result[i] == r.result[i - 1];
      }
    }
  }
}
