/** What is known of a lowered expression before lowering it: the constant, temporary-free
    part of it, the conditionals dropped for that, and the ones that survive. */
module Residue {
  import opened Wrappers
  import opened Constants
  import opened Lowering

  predicate NoTmp(e: Expr) {
    Within(e, 0, 0)
  }

  /** An expression, if it holds no temporary. */
  function Strip(e: Expr): Option<Expr> {
    if NoTmp(e) then Some(e) else None
  }

  /** Whether the condition is a known constant, and if so whether it is zero. */
  function Known(c: Option<Expr>): Option<bool> {
    if c.Some? then KnownZero(c.value) else None
  }

  function JoinCond(c: Option<Expr>, t: Option<Expr>, f: Option<Expr>, ty: Type): Option<Expr> {
    if c.Some? && t.Some? && f.Some? then Some(Cond(c.value, t.value, f.value, ty)) else None
  }

  function ChooseStatic(helper: bool, kept: Option<Expr>, c: Option<Expr>, t: Option<Expr>, f: Option<Expr>): Option<Expr> {
    if Known(c).Some? then (if Known(c).value then f else t)
    else if t.Some? && t == f then t
    else if helper then None
    else kept
  }

  /** What an operand becomes, when no temporary is needed to say it. */
  function Static(e: Expr): Option<Expr>
    decreases e, 1
  {
    match e
    case Cst(_, _) => Some(PackOperand(e))
    case Var(_, _) => Some(e)
    case Op(code, args, ty, effect) =>
      var s := Statics(args);
      if s.Some? then Some(Op(code, s.value, ty, effect)) else None
    case Cond(c, t, f, ty) =>
      var kept := JoinCond(StaticNode(c), StaticNode(t), StaticNode(f), ty);
      ChooseStatic(HasSelect(ty, TypeOf(c)), kept, Static(c), Static(t), Static(f))
    case _ => None
  }

  /** The same of the node an expression leaves behind. */
  function StaticNode(e: Expr): Option<Expr>
    decreases e, 2
  {
    match e
    case Cst(_, _) => Some(e)
    case Cond(c, t, f, ty) => JoinCond(StaticNode(c), StaticNode(t), StaticNode(f), ty)
    case _ => Static(e)
  }

  function Statics(es: seq<Expr>): Option<seq<Expr>>
    decreases es, 0
  {
    if es == [] then Some([])
    else
      var h, r := Static(es[0]), Statics(es[1..]);
      if h.Some? && r.Some? then Some([h.value] + r.value) else None
  }

  /** Both branches become the same expression. */
  predicate SameBranches(e: Expr)
    requires e.Cond?
  {
    Static(e.t).Some? && Static(e.t) == Static(e.f)
  }

  function KnownCond(e: Expr): Option<bool>
    requires e.Cond?
  {
    Known(Static(e.c))
  }

  /** The conditional is replaced by one of its branches. */
  predicate Dropped(e: Expr)
    requires e.Cond?
  {
    KnownCond(e).Some? || SameBranches(e)
  }

  /** The branch it is replaced by. */
  function Branch(e: Expr): (b: Expr)
    requires e.Cond? && Dropped(e)
    ensures b < e
  {
    if KnownCond(e) == Some(true) then e.f else e.t
  }

  lemma ChooseStrip(ty: Type, kept: Expr, c: Expr, t: Expr, f: Expr, lo: nat, mid: nat, next: nat)
    requires Within(t, lo, mid) && Within(f, mid, next)
    ensures Known(Strip(c)) == KnownZero(c)
    ensures Strip(t).Some? && Strip(t) == Strip(f) <==> t == f
    ensures Strip(Choose(ty, kept, c, t, f, next).result)
         == ChooseStatic(HasSelect(ty, TypeOf(c)), Strip(kept), Strip(c), Strip(t), Strip(f))
  {
    SameStrip(t, f, lo, mid, next);
    KnownStrip(c);
    ChooseResult(ty, kept, c, t, f, next);
    TmpStrips(if TypeOf(c).Ternary? then next + 1 else next, ty);
    hide Choose, Strip, KnownZero, Known, HasSelect, Within;
  }

  lemma ChooseResult(ty: Type, kept: Expr, c: Expr, t: Expr, f: Expr, next: nat)
    ensures Choose(ty, kept, c, t, f, next).result ==
      if KnownZero(c).Some? then (if KnownZero(c).value then f else t)
      else if t == f then t
      else if HasSelect(ty, TypeOf(c)) then Tmp(if TypeOf(c).Ternary? then next + 1 else next, ty)
      else kept
  {
    hide KnownZero, HasSelect, LongCond;
  }

  lemma SameStrip(t: Expr, f: Expr, lo: nat, mid: nat, hi: nat)
    requires Within(t, lo, mid) && Within(f, mid, hi)
    ensures Strip(t).Some? && Strip(t) == Strip(f) <==> t == f
  {
    hide NoTmp, Within;
    if t == f {
      Disjoint(t, lo, mid, hi);
    }
  }

  lemma StripCond(c: Expr, t: Expr, f: Expr, ty: Type)
    ensures Strip(Cond(c, t, f, ty)) == JoinCond(Strip(c), Strip(t), Strip(f), ty)
  {
  }

  lemma StaticCond(e: Expr)
    requires e.Cond?
    ensures StaticNode(e) == JoinCond(StaticNode(e.c), StaticNode(e.t), StaticNode(e.f), e.ty)
    ensures Static(e) == ChooseStatic(HasSelect(e.ty, TypeOf(e.c)), StaticNode(e), Static(e.c), Static(e.t), Static(e.f))
  {
  }

  lemma KnownStrip(c: Expr)
    ensures Known(Strip(c)) == KnownZero(c)
  {
    hide UnpackConstant;
  }

  lemma TmpStrips(id: nat, ty: Type)
    ensures Strip(Tmp(id, ty)) == None
  {
  }

  lemma {:induction false} Disjoint(e: Expr, lo: nat, mid: nat, hi: nat)
    requires Within(e, lo, mid) && Within(e, mid, hi)
    ensures NoTmp(e)
  {
    match e
    case Op(_, args, _, _) =>
      forall i | 0 <= i < |args| ensures NoTmp(args[i]) {
        Disjoint(args[i], lo, mid, hi);
      }
    case Convert(a) => Disjoint(a, lo, mid, hi);
    case Cond(c, t, f, _) =>
      Disjoint(c, lo, mid, hi);
      Disjoint(t, lo, mid, hi);
      Disjoint(f, lo, mid, hi);
    case _ =>
  }

  /** The prediction is exact: there is a static form precisely when the lowered operand holds
      no temporary, and then it is that operand. The same of the node. */
  lemma {:induction false} StaticExact(e: Expr, next: nat)
    requires WellFormedOperand(e)
    ensures Static(e) == Strip(PackOperand(Lower(e, next).result))
    ensures StaticNode(e) == Strip(Node(e, next))
    decreases e, 2
  {
    if !IsLiteral(e) {
      assert WellFormed(e);
      match e
      case Op(_, args, _, _) =>
        LowerOp(e, next);
        StaticsExact(args, next);
      case Cond(_, _, _, _) => CondStatic(e, next);
      case _ =>
    }
  }

  /** For a conditional: which of the pass's tests succeed, and the result. */
  lemma {:induction false} CondStatic(e: Expr, next: nat)
    requires e.Cond? && WellFormed(e)
    ensures var p := StepsOf(e, next);
      KnownCond(e) == KnownZero(p.Cond()) && (SameBranches(e) <==> p.Then() == p.Else())
    ensures Static(e) == Strip(PackOperand(Lower(e, next).result))
    ensures StaticNode(e) == Strip(Node(e, next))
    decreases e, 1
  {
    var p := StepsOf(e, next);
    CondShape(e, next);
    StaticExact(e.c, next);
    StaticExact(e.t, p.c.next);
    StaticExact(e.f, p.t.next);
    LowerCond(e, next);
    StaticCond(e);
    hide Lower, Node, Choose, PackOperand, KnownZero, Within, HasSelect, Writes, Static, StaticNode, Strip, ChooseStatic;
    StripCond(Node(e.c, next), Node(e.t, p.c.next), Node(e.f, p.t.next), e.ty);
    ChooseStrip(e.ty, Node(e, next), p.Cond(), p.Then(), p.Else(), p.c.next, p.t.next, p.f.next);
  }

  lemma {:induction false} StaticsExact(es: seq<Expr>, next: nat)
    requires forall i :: 0 <= i < |es| ==> WellFormed(es[i])
    ensures var r := LowerArgs(es, next).result;
      Statics(es) == if forall i :: 0 <= i < |r| ==> NoTmp(r[i]) then Some(r) else None
    decreases es, 0
  {
    if es != [] {
      var h := Lower(es[0], next);
      LowerShape(es[0], next);
      StaticExact(es[0], next);
      StaticsExact(es[1..], h.next);
      var r, rest := LowerArgs(es, next).result, LowerArgs(es[1..], h.next).result;
      assert r == [h.result] + rest;
      if forall i :: 0 <= i < |r| ==> NoTmp(r[i]) {
        assert NoTmp(r[0]);
        forall i | 0 <= i < |rest| ensures NoTmp(rest[i]) {
          assert rest[i] == r[i + 1];
        }
      }
    }
  }

  // Conditionals that survive

  /** A conditional remains in what an operand becomes. */
  predicate Survives(e: Expr)
    decreases e
  {
    match e
    case Op(_, args, _, _) => exists i :: 0 <= i < |args| && Survives(args[i])
    case Cond(c, _, _, ty) => if Dropped(e) then Survives(Branch(e)) else !HasSelect(ty, TypeOf(c))
    case _ => false
  }

  /** A conditional remains exactly where no helper exists, the condition is not known and
      the branches differ. */
  lemma {:induction false} SurvivesExact(e: Expr, next: nat)
    requires WellFormedOperand(e)
    ensures HasCond(PackOperand(Lower(e, next).result)) <==> Survives(e)
    decreases e, 2
  {
    if !IsLiteral(e) {
      assert WellFormed(e);
      match e
      case Op(_, args, _, _) =>
        LowerOp(e, next);
        ArgsSurvive(args, next);
      case Cond(_, _, _, _) => CondSurvives(e, next);
      case _ =>
    }
  }

  lemma {:induction false} CondSurvives(e: Expr, next: nat)
    requires e.Cond? && WellFormed(e)
    ensures HasCond(PackOperand(Lower(e, next).result)) <==> Survives(e)
    decreases e, 1
  {
    var p := StepsOf(e, next);
    CondShape(e, next);
    CondStatic(e, next);
    LowerCond(e, next);
    SurvivesExact(e.t, p.c.next);
    SurvivesExact(e.f, p.t.next);
    hide Lower, Choose, Node, PackOperand, KnownZero, Within, HasSelect, Static, Writes;
    ChooseSurvives(e.ty, Node(e, next), p.Cond(), p.Then(), p.Else(), p.f.next);
  }

  lemma {:induction false} ArgsSurvive(es: seq<Expr>, next: nat)
    requires forall i :: 0 <= i < |es| ==> WellFormed(es[i])
    ensures forall i :: 0 <= i < |es| ==> (HasCond(LowerArgs(es, next).result[i]) <==> Survives(es[i]))
    decreases es, 0
  {
    if es != [] {
      var h := Lower(es[0], next);
      LowerShape(es[0], next);
      SurvivesExact(es[0], next);
      ArgsSurvive(es[1..], h.next);
      var r, rest := LowerArgs(es, next).result, LowerArgs(es[1..], h.next).result;
      forall i | 0 <= i < |es| ensures HasCond(r[i]) <==> Survives(es[i]) {
        assert i > 0 ==> r[i] == rest[i - 1] && es[i] == es[1..][i - 1];
      }
    }
  }

  lemma ChooseSurvives(ty: Type, kept: Expr, c: Expr, t: Expr, f: Expr, next: nat)
    requires kept.Cond?
    ensures HasCond(Choose(ty, kept, c, t, f, next).result) <==>
      if KnownZero(c).Some? then HasCond(if KnownZero(c).value then f else t)
      else if t == f then HasCond(t) else !HasSelect(ty, TypeOf(c))
  {
    hide KnownZero, HasSelect, LongCond;
  }

  /** No operand of a helper call holds a conditional. */
  predicate Flat(ss: seq<Stmt>) {
    forall s :: s in ss ==> FlatCall(s)
  }

  predicate FlatCall(s: Stmt) {
    match s
    case CallTt2b(_, arg) => !HasCond(arg)
    case CallSelect(_, c, t, f) => !HasCond(c) && !HasCond(t) && !HasCond(f)
  }

  /** No conditional remains in the helper calls emitted for e. */
  predicate CallsFlat(e: Expr)
    decreases e
  {
    match e
    case Op(_, args, _, _) => forall i :: 0 <= i < |args| ==> CallsFlat(args[i])
    case Cond(c, t, f, ty) =>
      CallsFlat(c) && CallsFlat(t) && CallsFlat(f) &&
      (Dropped(e) ||
       if HasSelect(ty, TypeOf(c)) then !Survives(c) && !Survives(t) && !Survives(f)
       else TypeOf(c).Ternary? ==> !Survives(c))
    case _ => true
  }

  lemma FlatAppend(a: seq<Stmt>, b: seq<Stmt>)
    ensures Flat(a + b) <==> Flat(a) && Flat(b)
  {
    hide FlatCall;
    assert forall s :: s in a + b <==> s in a || s in b;
  }

  lemma FlatOne(s: Stmt)
    ensures Flat([s]) <==> FlatCall(s)
  {
    assert s in [s];
  }

  lemma ChooseFlat(ty: Type, kept: Expr, c: Expr, t: Expr, f: Expr, next: nat)
    ensures Flat(Choose(ty, kept, c, t, f, next).stmts) <==>
      KnownZero(c).Some? || t == f ||
      if HasSelect(ty, TypeOf(c)) then !HasCond(c) && !HasCond(t) && !HasCond(f)
      else TypeOf(c).Ternary? ==> !HasCond(c)
  {
    hide KnownZero, HasSelect, Flat;
    assert HasCond(LongCond(c)) == HasCond(c);
    assert !HasCond(Tmp(next, LONG_LONG));
    var conv := CallTt2b(next, c);
    FlatOne(conv);
    FlatOne(CallSelect(next + 1, Tmp(next, LONG_LONG), t, f));
    FlatOne(CallSelect(next, LongCond(c), t, f));
    FlatAppend([conv], [CallSelect(next + 1, Tmp(next, LONG_LONG), t, f)]);
    FlatAppend([], [CallSelect(next, LongCond(c), t, f)]);
    assert Flat([]) by { FlatNone(); }
  }

  lemma FlatNone()
    ensures Flat([])
  {
  }

  /** The same prediction for the emitted calls. */
  lemma {:induction false} CallsFlatExact(e: Expr, next: nat)
    requires WellFormedOperand(e)
    ensures Flat(Lower(e, next).stmts) <==> CallsFlat(e)
    decreases e, 2
  {
    if !IsLiteral(e) {
      assert WellFormed(e);
      match e
      case Op(_, args, _, _) =>
        LowerOp(e, next);
        ArgsFlat(args, next);
      case Cond(_, _, _, _) => CondFlat(e, next);
      case _ =>
    }
  }

  lemma {:induction false} CondFlat(e: Expr, next: nat)
    requires e.Cond? && WellFormed(e)
    ensures Flat(Lower(e, next).stmts) <==> CallsFlat(e)
    decreases e, 1
  {
    var p := StepsOf(e, next);
    CondShape(e, next);
    CondStatic(e, next);
    LowerCond(e, next);
    CallsFlatExact(e.c, next);
    CallsFlatExact(e.t, p.c.next);
    CallsFlatExact(e.f, p.t.next);
    SurvivesExact(e.c, next);
    SurvivesExact(e.t, p.c.next);
    SurvivesExact(e.f, p.t.next);
    hide Lower, Choose, Node, PackOperand, KnownZero, Within, HasSelect, Static, Writes, HasCond, Flat, WellFormed, Survives;
    ChooseFlat(e.ty, Node(e, next), p.Cond(), p.Then(), p.Else(), p.f.next);
    FlatAppend(p.c.stmts + p.t.stmts + p.f.stmts, p.own.stmts);
    FlatAppend(p.c.stmts + p.t.stmts, p.f.stmts);
    FlatAppend(p.c.stmts, p.t.stmts);
  }

  lemma {:induction false} ArgsFlat(es: seq<Expr>, next: nat)
    requires forall i :: 0 <= i < |es| ==> WellFormed(es[i])
    ensures Flat(LowerArgs(es, next).stmts) <==> forall i :: 0 <= i < |es| ==> CallsFlat(es[i])
    decreases es, 0
  {
    if es != [] {
      var h := Lower(es[0], next);
      CallsFlatExact(es[0], next);
      ArgsFlat(es[1..], h.next);
      FlatAppend(h.stmts, LowerArgs(es[1..], h.next).stmts);
      hide Flat, CallsFlat;
      assert es == [es[0]] + es[1..];
      assert forall i :: 0 <= i < |es[1..]| ==> es[1..][i] == es[i + 1];
    }
  }

  /** Every conditional has a select helper. */
  predicate Helped(e: Expr)
    decreases e
  {
    match e
    case Op(_, args, _, _) => forall i :: 0 <= i < |args| ==> Helped(args[i])
    case Cond(c, t, f, ty) => Helped(c) && Helped(t) && Helped(f) && HasSelect(ty, TypeOf(c))
    case _ => true
  }

  /** With all the helpers no conditional remains. */
  lemma {:induction false} HelpedGone(e: Expr)
    requires Helped(e)
    ensures !Survives(e) && CallsFlat(e)
  {
    match e
    case Op(_, args, _, _) =>
      forall i | 0 <= i < |args| ensures !Survives(args[i]) && CallsFlat(args[i]) {
        HelpedGone(args[i]);
      }
    case Cond(c, t, f, _) =>
      HelpedGone(c);
      HelpedGone(t);
      HelpedGone(f);
    case _ =>
  }

  /** When no conditional remains, a second pass does nothing. */
  lemma {:induction false} LowerTwice(e: Expr, next: nat, again: nat)
    requires WellFormed(e) && !Survives(e)
    ensures Lower(Lower(e, next).result, again) == Lowered(Lower(e, next).result, [], again)
  {
    LowerShape(e, next);
    SurvivesExact(e, next);
    LowerIdentity(Lower(e, next).result, again);
  }
}
