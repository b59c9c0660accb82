/** Lowering of nested conditional expressions to a sequence of helper calls. */
module Lowering {
  import opened Wrappers
  import opened CArith
  import opened BitOps
  import opened Trits
  import opened Words
  import opened Constants
  import Ops = PackedOps
  import WordLaws

  /** Expression trees. `Convert` is fold_convert to long long, `Tmp` a temporary the pass
      created, `effect` the side effect of an operation itself. */
  datatype Expr =
    | Cst(value: int, ty: Type)
    | Var(id: nat, ty: Type)
    | Tmp(id: nat, ty: Type)
    | Op(code: nat, args: seq<Expr>, ty: Type, effect: bool)
    | Convert(arg: Expr)
    | Cond(c: Expr, t: Expr, f: Expr, ty: Type)

  /** Statements inserted before the one being lowered. */
  datatype Stmt =
    | CallTt2b(dst: nat, arg: Expr)
    | CallSelect(dst: nat, cond: Expr, t: Expr, f: Expr)

  const LONG_LONG := Integer(64, false)

  function TypeOf(e: Expr): Type {
    if e.Convert? then LONG_LONG else e.ty
  }

  function HasCond(e: Expr): bool
    decreases e
  {
    match e
    case Cond(_, _, _, _) => true
    case Op(_, args, _, _) => exists i :: 0 <= i < |args| && HasCond(args[i])
    case Convert(a) => HasCond(a)
    case _ => false
  }

  function SideEffects(e: Expr): bool
    decreases e
  {
    match e
    case Cond(c, t, f, _) => SideEffects(c) || SideEffects(t) || SideEffects(f)
    case Op(_, args, _, effect) => effect || exists i :: 0 <= i < |args| && SideEffects(args[i])
    case Convert(a) => SideEffects(a)
    case _ => false
  }

  /** A select helper exists for an integral condition and a ternary, integral or
      float/double result. */
  predicate HasSelect(result: Type, cond: Type) {
    (cond.Ternary? || cond.Integer?) &&
    (result.Ternary? || result.Integer? || (result.Real? && (result.bits == 32 || result.bits == 64)))
  }

  // What the pass does

  /** A result with the statements it needs and the next free temporary. */
  datatype Lowered<T> = Lowered(result: T, stmts: seq<Stmt>, next: nat)

  /** A literal operand of a conditional is packed when it can be. */
  function PackOperand(e: Expr): Expr {
    if e.Cst? && PackConstant(e.value, e.ty).Some? then Cst(PackConstant(e.value, e.ty).value, e.ty) else e
  }

  /** Whether a constant condition is known, and if so whether it is zero. */
  function KnownZero(c: Expr): Option<bool> {
    if !c.Cst? then None
    else if c.ty.Ternary? then
      match UnpackConstant(c.value, c.ty) case Some(v) => Some(v == 0) case None => None
    else Some(c.value == 0)
  }

  /** The condition as select receives it: converted to long long if it has another type. */
  function LongCond(c: Expr): Expr {
    if TypeOf(c) != LONG_LONG then Convert(c) else c
  }

  /** What replaces a conditional of type ty whose operands are lowered and packed already;
      `kept` is its node, which stays when there is no helper. */
  function Choose(ty: Type, kept: Expr, c: Expr, t: Expr, f: Expr, next: nat): Lowered<Expr> {
    if KnownZero(c).Some? then Lowered(if KnownZero(c).value then f else t, [], next)
    else if t == f then Lowered(t, [], next)
    else
      var conv := if TypeOf(c).Ternary? then [CallTt2b(next, c)] else [];
      var arg := if TypeOf(c).Ternary? then Tmp(next, LONG_LONG) else LongCond(c);
      var dst := next + |conv|;
      if !HasSelect(ty, TypeOf(c)) then Lowered(kept, conv, dst)
      else Lowered(Tmp(dst, ty), conv + [CallSelect(dst, arg, t, f)], dst + 1)
  }

  function Lower(e: Expr, next: nat): Lowered<Expr>
    decreases e, 1
  {
    match e
    case Cond(c, t, f, ty) =>
      var lc := Lower(c, next);
      var lt := Lower(t, lc.next);
      var lf := Lower(f, lt.next);
      var kept := Cond(Node(c, next), Node(t, lc.next), Node(f, lt.next), ty);
      var r := Choose(ty, kept, PackOperand(lc.result), PackOperand(lt.result), PackOperand(lf.result), lf.next);
      Lowered(r.result, lc.stmts + lt.stmts + lf.stmts + r.stmts, r.next)
    case Op(code, args, ty, effect) =>
      if SideEffects(e) && HasCond(e) then Lowered(e, [], next)
      else
        var l := LowerArgs(args, next);
        Lowered(Op(code, l.result, ty, effect), l.stmts, l.next)
    case Convert(a) =>
      if SideEffects(e) && HasCond(e) then Lowered(e, [], next)
      else
        var l := Lower(a, next);
        Lowered(Convert(l.result), l.stmts, l.next)
    case _ => Lowered(e, [], next)
  }

  /** The node of e after the call: operators are overwritten in place, a conditional's own
      operands are not. */
  function Node(e: Expr, next: nat): Expr
    decreases e, 2
  {
    match e
    case Cond(c, t, f, ty) =>
      var lc := Lower(c, next);
      var lt := Lower(t, lc.next);
      Cond(Node(c, next), Node(t, lc.next), Node(f, lt.next), ty)
    case _ => Lower(e, next).result
  }

  function LowerArgs(es: seq<Expr>, next: nat): (l: Lowered<seq<Expr>>)
    ensures |l.result| == |es|
    decreases es, 0
  {
    if es == [] then Lowered([], [], next)
    else
      var h := Lower(es[0], next);
      var r := LowerArgs(es[1..], h.next);
      Lowered([h.result] + r.result, h.stmts + r.stmts, r.next)
  }

  /** The pieces of a conditional's lowering: its operands', then its own. */
  datatype Steps = Steps(c: Lowered<Expr>, t: Lowered<Expr>, f: Lowered<Expr>, own: Lowered<Expr>)
  {
    function Cond(): Expr {
      PackOperand(c.result)
    }

    function Then(): Expr {
      PackOperand(t.result)
    }

    function Else(): Expr {
      PackOperand(f.result)
    }
  }

  function StepsOf(e: Expr, next: nat): Steps
    requires e.Cond?
  {
    var lc := Lower(e.c, next);
    var lt := Lower(e.t, lc.next);
    var lf := Lower(e.f, lt.next);
    var own := Choose(e.ty, Node(e, next), PackOperand(lc.result), PackOperand(lt.result),
                      PackOperand(lf.result), lf.next);
    Steps(lc, lt, lf, own)
  }

  lemma LowerCond(e: Expr, next: nat)
    requires e.Cond?
    ensures var p := StepsOf(e, next);
      Lower(e, next) == Lowered(p.own.result, p.c.stmts + p.t.stmts + p.f.stmts + p.own.stmts, p.own.next) &&
      Node(e, next) == Cond(Node(e.c, next), Node(e.t, p.c.next), Node(e.f, p.t.next), e.ty)
  {
  }

  // What expressions mean

  /** The values of the variables and the meaning of every operation. */
  datatype World = World(vars: nat -> int, ops: (nat, seq<int>) -> int)

  type Temps = map<nat, int>

  function Get(tmps: Temps, id: nat): int {
    if id in tmps then tmps[id] else 0
  }

  /** A result reduced to its type. */
  function Norm(ty: Type, v: int): int {
    match ty
    case Ternary(n) => v % Pow2(2 * n)
    case Integer(bits, true) => v % Pow2(bits)
    case Integer(bits, false) =>
      if bits == 0 then 0 else (v + Pow2(bits - 1)) % Pow2(bits) - Pow2(bits - 1)
    case _ => v
  }

  predicate InType(ty: Type, v: int) {
    match ty
    case Ternary(n) => 0 <= v < Pow2(2 * n)
    case Integer(bits, true) => 0 <= v < Pow2(bits)
    case Integer(bits, false) => if bits == 0 then v == 0 else -(Pow2(bits - 1) as int) <= v < Pow2(bits - 1)
    case _ => true
  }

  /** The helper tt2b on a word of the given type. */
  function Tt2b(ty: Type, v: int): int {
    if ty.Ternary? && v >= 0 then Ops.Decode(v, ty.trits) else v
  }

  /** A condition holds when its logical value is not zero. */
  predicate Holds(ty: Type, v: int) {
    Tt2b(ty, v) != 0
  }

  /** The meaning of an expression before the pass: a packable literal is its logical value,
      so it stands for the packed word. */
  function Meaning(e: Expr, w: World): int
    decreases e, 1
  {
    match e
    case Cst(_, _) => PackOperand(e).value
    case Var(id, ty) => Norm(ty, w.vars(id))
    case Tmp(_, _) => 0
    case Op(code, args, ty, _) => Norm(ty, w.ops(code, Meanings(args, w)))
    case Convert(a) => Wrap64(Meaning(a, w))
    case Cond(c, t, f, _) => if Holds(TypeOf(c), Meaning(c, w)) then Meaning(t, w) else Meaning(f, w)
  }

  function Meanings(es: seq<Expr>, w: World): (vs: seq<int>)
    ensures |vs| == |es|
    decreases es, 0
  {
    if es == [] then [] else [Meaning(es[0], w)] + Meanings(es[1..], w)
  }

  /** The value of an expression at run time. A literal is the word it is, and a conditional
      still there is compiled like any other: it tests the word itself against zero. */
  function Eval(e: Expr, w: World, tmps: Temps): int
    decreases e, 1
  {
    match e
    case Cst(v, _) => v
    case Var(id, ty) => Norm(ty, w.vars(id))
    case Tmp(id, _) => Get(tmps, id)
    case Op(code, args, ty, _) => Norm(ty, w.ops(code, Evals(args, w, tmps)))
    case Convert(a) => Wrap64(Eval(a, w, tmps))
    case Cond(c, t, f, _) =>
      if Eval(c, w, tmps) != 0 then Eval(t, w, tmps) else Eval(f, w, tmps)
  }

  function Evals(es: seq<Expr>, w: World, tmps: Temps): (vs: seq<int>)
    ensures |vs| == |es|
    decreases es, 0
  {
    if es == [] then [] else [Eval(es[0], w, tmps)] + Evals(es[1..], w, tmps)
  }

  /** select evaluates its condition and both branches, and then picks. */
  function Run(s: Stmt, w: World, tmps: Temps): Temps {
    match s
    case CallTt2b(dst, arg) => tmps[dst := Tt2b(TypeOf(arg), Eval(arg, w, tmps))]
    case CallSelect(dst, cond, t, f) =>
      tmps[dst := if Eval(cond, w, tmps) != 0 then Eval(t, w, tmps) else Eval(f, w, tmps)]
  }

  function RunAll(ss: seq<Stmt>, w: World, tmps: Temps): Temps {
    if ss == [] then tmps else RunAll(ss[1..], w, Run(ss[0], w, tmps))
  }

  // Expressions the pass is meant for

  /** Side-effect-free source expressions with 32-trit conditions or integer ones of at most
      64 bits. A ternary literal that can be packed may stand only as an operand of a
      conditional. */
  predicate WellFormed(e: Expr)
    decreases e, 1
  {
    match e
    case Cst(v, ty) => InType(ty, v) && PackOperand(e) == e
    case Var(_, _) => true
    case Op(_, args, _, effect) => !effect && forall i :: 0 <= i < |args| ==> WellFormed(args[i])
    case Cond(c, t, f, ty) =>
      WellFormedOperand(c) && WellFormedOperand(t) && WellFormedOperand(f) &&
      IsCondType(TypeOf(c)) && TypeOf(t) == TypeOf(f) == ty
    case _ => false
  }

  predicate WellFormedOperand(e: Expr)
    decreases e, 2
  {
    WellFormed(e) || IsLiteral(e)
  }

  predicate IsLiteral(e: Expr) {
    e.Cst? && e.ty == T32 && InType(T32, e.value)
  }

  predicate IsCondType(ty: Type) {
    ty == T32 || (ty.Integer? && ty.bits <= 64)
  }

  // Frames

  /** Every temporary in e is numbered in [lo, hi). */
  predicate Within(e: Expr, lo: nat, hi: nat)
    decreases e
  {
    match e
    case Tmp(id, _) => lo <= id < hi
    case Op(_, args, _, _) => forall i :: 0 <= i < |args| ==> Within(args[i], lo, hi)
    case Convert(a) => Within(a, lo, hi)
    case Cond(c, t, f, _) => Within(c, lo, hi) && Within(t, lo, hi) && Within(f, lo, hi)
    case _ => true
  }

  lemma {:induction false} WithinMono(e: Expr, lo: nat, hi: nat, lo': nat, hi': nat)
    requires Within(e, lo, hi) && lo' <= lo && hi <= hi'
    ensures Within(e, lo', hi')
  {
    match e
    case Op(_, args, _, _) =>
      forall i | 0 <= i < |args| ensures Within(args[i], lo', hi') {
        WithinMono(args[i], lo, hi, lo', hi');
      }
    case Convert(a) => WithinMono(a, lo, hi, lo', hi');
    case Cond(x, y, z, _) =>
      WithinMono(x, lo, hi, lo', hi');
      WithinMono(y, lo, hi, lo', hi');
      WithinMono(z, lo, hi, lo', hi');
    case _ =>
  }

  ghost predicate Agree(x: Temps, y: Temps, b: nat) {
    forall id: nat :: id < b ==> Get(x, id) == Get(y, id)
  }

  lemma {:induction false} EvalFrame(e: Expr, w: World, x: Temps, y: Temps, lo: nat, hi: nat)
    requires Within(e, lo, hi) && Agree(x, y, hi)
    ensures Eval(e, w, x) == Eval(e, w, y)
    decreases e, 1
  {
    match e
    case Op(_, args, _, _) => EvalsFrame(args, w, x, y, lo, hi);
    case Convert(a) => EvalFrame(a, w, x, y, lo, hi);
    case Cond(c, t, f, _) =>
      EvalFrame(c, w, x, y, lo, hi);
      EvalFrame(t, w, x, y, lo, hi);
      EvalFrame(f, w, x, y, lo, hi);
    case _ =>
  }

  lemma {:induction false} EvalsFrame(es: seq<Expr>, w: World, x: Temps, y: Temps, lo: nat, hi: nat)
    requires Agree(x, y, hi) && forall i :: 0 <= i < |es| ==> Within(es[i], lo, hi)
    ensures Evals(es, w, x) == Evals(es, w, y)
    decreases es, 0
  {
    if es != [] {
      EvalFrame(es[0], w, x, y, lo, hi);
      EvalsFrame(es[1..], w, x, y, lo, hi);
    }
  }

  /** Every statement writes a temporary in [lo, hi). */
  predicate Writes(ss: seq<Stmt>, lo: nat, hi: nat) {
    forall s :: s in ss ==> lo <= s.dst < hi
  }

  lemma {:induction false} RunAppend(a: seq<Stmt>, b: seq<Stmt>, w: World, tmps: Temps)
    ensures RunAll(a + b, w, tmps) == RunAll(b, w, RunAll(a, w, tmps))
  {
    if a == [] {
      assert a + b == b;
    } else {
      assert (a + b)[1..] == a[1..] + b;
      RunAppend(a[1..], b, w, Run(a[0], w, tmps));
    }
  }

  lemma {:induction false} RunFrame(ss: seq<Stmt>, lo: nat, hi: nat, w: World, tmps: Temps)
    requires Writes(ss, lo, hi)
    ensures Agree(tmps, RunAll(ss, w, tmps), lo)
  {
    if ss != [] {
      assert ss[0] in ss;
      RunFrame(ss[1..], lo, hi, w, Run(ss[0], w, tmps));
    }
  }

  // Types

  lemma NormInType(ty: Type, v: int)
    ensures InType(ty, Norm(ty, v))
  {
    if ty.Integer? && !ty.unsigned && ty.bits > 0 {
      assert Pow2(ty.bits) == 2 * Pow2(ty.bits - 1);
    }
  }

  /** A literal that can be packed is packed once; one that cannot passes through. */
  lemma LiteralWord(e: Expr)
    requires IsLiteral(e)
    ensures InType(T32, PackOperand(e).value) && PackOperand(PackOperand(e)) == PackOperand(e)
    ensures InRange(e.value, 32) ==> PackOperand(e) == Cst(Ops.Encode(e.value, 32), T32)
    ensures !InRange(e.value, 32) ==> PackOperand(e) == e
  {
    hide Ops.Encode;
    UnpackPack(e.value, 32);
    if InRange(e.value, 32) {
      LiteralFits(e.value);
      Pow3Constants();
      RepackRefusedAbove(e.value);
    }
  }

  lemma LiteralFits(v: int)
    requires InRange(v, 32)
    ensures InType(T32, Ops.Encode(v, 32))
  {
    WordLaws.EncodeTrits(v, 32);
  }

  /** Conversion to long long keeps a condition of at most 64 bits zero or non-zero. */
  lemma ConvertKeepsZero(ty: Type, v: int)
    requires ty.Integer? && ty.bits <= 64 && InType(ty, v)
    ensures Wrap64(v) != 0 <==> v != 0
  {
    Pow2Constants();
    Pow2Mono(ty.bits, 64);
    if ty.bits > 0 {
      Pow2Mono(ty.bits - 1, 64);
    }
  }

  lemma {:induction false} NoEffects(e: Expr)
    requires WellFormedOperand(e)
    ensures !SideEffects(e)
  {
    if !IsLiteral(e) {
      assert WellFormed(e);
      match e
      case Op(_, args, _, _) =>
        forall i | 0 <= i < |args| ensures !SideEffects(args[i]) {
          assert WellFormed(args[i]);
          NoEffects(args[i]);
        }
      case Cond(c, t, f, _) =>
        NoEffects(c);
        NoEffects(t);
        NoEffects(f);
      case _ =>
    }
  }

  lemma LowerOp(e: Expr, next: nat)
    requires e.Op? && WellFormed(e)
    ensures var l := LowerArgs(e.args, next);
      Lower(e, next) == Lowered(Op(e.code, l.result, e.ty, e.effect), l.stmts, l.next)
    ensures Node(e, next) == Lower(e, next).result
  {
    NoEffects(e);
  }

  // Shape of the result

  /** A lowered operand: its own temporaries, the type it had, packed. */
  predicate Clean(o: Expr, ty: Type, lo: nat, hi: nat) {
    Within(o, lo, hi) && TypeOf(o) == ty && PackOperand(o) == o
  }

  lemma CleanMono(o: Expr, ty: Type, lo: nat, hi: nat, lo': nat, hi': nat)
    requires Clean(o, ty, lo, hi) && lo' <= lo && hi <= hi'
    ensures Clean(o, ty, lo', hi')
  {
    WithinMono(o, lo, hi, lo', hi');
  }

  lemma ChooseShape(ty: Type, kept: Expr, c: Expr, t: Expr, f: Expr, lo: nat, next: nat)
    requires lo <= next && kept.Cond? && kept.ty == ty && Within(kept, lo, next)
    requires Clean(t, ty, lo, next) && Clean(f, ty, lo, next)
    ensures var r := Choose(ty, kept, c, t, f, next);
      next <= r.next && Writes(r.stmts, next, r.next) && Clean(r.result, ty, lo, r.next)
  {
    var r := Choose(ty, kept, c, t, f, next);
    CleanMono(t, ty, lo, next, lo, r.next);
    CleanMono(f, ty, lo, next, lo, r.next);
    WithinMono(kept, lo, next, lo, r.next);
  }

  /** What lowering an operand does: it writes fresh temporaries only, and the result and the
      node hold no others. */
  ghost predicate Shaped(e: Expr, l: Lowered<Expr>, node: Expr, next: nat) {
    && next <= l.next && Writes(l.stmts, next, l.next)
    && Clean(PackOperand(l.result), TypeOf(e), next, l.next)
    && (WellFormed(e) ==> PackOperand(l.result) == l.result)
    && Within(node, next, l.next)
  }

  lemma {:induction false} LowerShape(e: Expr, next: nat)
    requires WellFormedOperand(e)
    ensures Shaped(e, Lower(e, next), Node(e, next), next)
    decreases e, 2
  {
    if IsLiteral(e) {
      LiteralWord(e);
    } else {
      assert WellFormed(e);
      match e
      case Op(code, args, ty, _) =>
        LowerOp(e, next);
        LowerArgsShape(args, next);
      case Cond(c, t, f, ty) => CondShape(e, next);
      case _ =>
    }
  }

  /** The same of every piece of a conditional. */
  ghost predicate StepsShaped(e: Expr, p: Steps, nc: Expr, nt: Expr, nf: Expr, next: nat)
    requires e.Cond?
  {
    && Shaped(e.c, p.c, nc, next)
    && Shaped(e.t, p.t, nt, p.c.next)
    && Shaped(e.f, p.f, nf, p.t.next)
    && p.own == Choose(e.ty, Cond(nc, nt, nf, e.ty), p.Cond(), p.Then(), p.Else(), p.f.next)
  }

  /** What a conditional's own statements may use and write. */
  predicate OwnShaped(p: Steps, node: Expr, next: nat) {
    && Within(p.Cond(), next, p.f.next) && Within(p.Then(), next, p.f.next)
    && Within(p.Else(), next, p.f.next) && Within(node, next, p.f.next)
    && next <= p.f.next <= p.own.next && Writes(p.own.stmts, p.f.next, p.own.next)
  }

  lemma StepsShape(e: Expr, p: Steps, nc: Expr, nt: Expr, nf: Expr, next: nat)
    requires e.Cond? && TypeOf(e.t) == TypeOf(e.f) == e.ty && StepsShaped(e, p, nc, nt, nf, next)
    ensures var l := Lowered(p.own.result, p.c.stmts + p.t.stmts + p.f.stmts + p.own.stmts, p.own.next);
      Shaped(e, l, Cond(nc, nt, nf, e.ty), next)
    ensures OwnShaped(p, Cond(nc, nt, nf, e.ty), next)
  {
    hide Choose, WellFormed, PackConstant, HasCond;
    var n, kept := p.f.next, Cond(nc, nt, nf, e.ty);
    WithinMono(p.Cond(), next, p.c.next, next, n);
    CleanMono(p.Then(), e.ty, p.c.next, p.t.next, next, n);
    CleanMono(p.Else(), e.ty, p.t.next, n, next, n);
    WithinMono(nc, next, p.c.next, next, n);
    WithinMono(nt, p.c.next, p.t.next, next, n);
    WithinMono(nf, p.t.next, n, next, n);
    ChooseShape(e.ty, kept, p.Cond(), p.Then(), p.Else(), next, n);
    WithinMono(kept, next, n, next, p.own.next);
  }

  lemma {:induction false} CondShape(e: Expr, next: nat)
    requires e.Cond? && WellFormed(e)
    ensures var p := StepsOf(e, next);
      StepsShaped(e, p, Node(e.c, next), Node(e.t, p.c.next), Node(e.f, p.t.next), next)
    ensures OwnShaped(StepsOf(e, next), Node(e, next), next)
    ensures Shaped(e, Lower(e, next), Node(e, next), next)
    decreases e, 1
  {
    var p := StepsOf(e, next);
    LowerShape(e.c, next);
    LowerShape(e.t, p.c.next);
    LowerShape(e.f, p.t.next);
    LowerCond(e, next);
    hide Lower, Choose, Shaped, OwnShaped, Node, PackOperand;
    StepsShape(e, p, Node(e.c, next), Node(e.t, p.c.next), Node(e.f, p.t.next), next);
  }

  lemma {:induction false} LowerArgsShape(es: seq<Expr>, next: nat)
    requires forall i :: 0 <= i < |es| ==> WellFormed(es[i])
    ensures var l := LowerArgs(es, next);
      next <= l.next && Writes(l.stmts, next, l.next) &&
      forall i :: 0 <= i < |es| ==> Clean(l.result[i], TypeOf(es[i]), next, l.next)
    decreases es, 0
  {
    if es != [] {
      var h := Lower(es[0], next);
      LowerShape(es[0], next);
      LowerArgsShape(es[1..], h.next);
      var r := LowerArgs(es[1..], h.next);
      var l := LowerArgs(es, next);
      forall i | 0 <= i < |es| ensures Clean(l.result[i], TypeOf(es[i]), next, l.next) {
        if i == 0 {
          CleanMono(h.result, TypeOf(es[0]), next, h.next, next, l.next);
        } else {
          assert l.result[i] == r.result[i - 1] && es[i] == es[1..][i - 1];
          CleanMono(r.result[i - 1], TypeOf(es[i]), h.next, r.next, next, l.next);
        }
      }
    }
  }

  // Expressions without conditionals

  /** Lowering touches nothing when there is no conditional, whatever else there is. */
  lemma {:induction false} LowerIdentity(e: Expr, next: nat)
    requires !HasCond(e)
    ensures Lower(e, next) == Lowered(e, [], next)
    decreases e, 1
  {
    match e
    case Op(_, args, _, _) => LowerArgsIdentity(args, next);
    case Convert(a) => LowerIdentity(a, next);
    case _ =>
  }

  lemma {:induction false} LowerArgsIdentity(es: seq<Expr>, next: nat)
    requires forall i :: 0 <= i < |es| ==> !HasCond(es[i])
    ensures LowerArgs(es, next) == Lowered(es, [], next)
    decreases es, 0
  {
    if es != [] {
      LowerIdentity(es[0], next);
      LowerArgsIdentity(es[1..], next);
      assert [es[0]] + es[1..] == es;
    }
  }

  /** What exactly becomes of a conditional whose operands hold none. */
  lemma OneConditional(c: Expr, t: Expr, f: Expr, ty: Type, next: nat)
    requires !HasCond(c) && !HasCond(t) && !HasCond(f)
    ensures var e := Cond(c, t, f, ty);
      var l, t', f', n := Lower(e, next), PackOperand(t), PackOperand(f), TypeOf(c);
      var helper := ty.Ternary? || ty.Integer? || ty == Real(32) || ty == Real(64);
      && Node(e, next) == e
      && (c.Cst? && !n.Ternary? ==> l == Lowered(if c.value == 0 then f' else t', [], next))
      && (c.Cst? && n == T32 && InRange(c.value, 32) ==> l == Lowered(if c.value == 0 then f' else t', [], next))
      && (!c.Cst? && t' == f' ==> l == Lowered(t', [], next))
      && (!c.Cst? && t' != f' && n.Ternary? && helper ==>
            l == Lowered(Tmp(next + 1, ty),
                         [CallTt2b(next, c), CallSelect(next + 1, Tmp(next, LONG_LONG), t', f')], next + 2))
      && (!c.Cst? && t' != f' && n.Ternary? && !helper ==> l == Lowered(e, [CallTt2b(next, c)], next + 1))
      && (!c.Cst? && t' != f' && n.Integer? && helper ==>
            l == Lowered(Tmp(next, ty),
                         [CallSelect(next, if n == Integer(64, false) then c else Convert(c), t', f')], next + 1))
      && (!c.Cst? && t' != f' && n.Integer? && !helper ==> l == Lowered(e, [], next))
      && (!c.Cst? && t' != f' && !n.Ternary? && !n.Integer? ==> l == Lowered(e, [], next))
  {
    var e := Cond(c, t, f, ty);
    LowerIdentity(c, next);
    LowerIdentity(t, next);
    LowerIdentity(f, next);
    LowerCond(e, next);
    NodeIdentity(c, next);
    NodeIdentity(t, next);
    NodeIdentity(f, next);
    if c.Cst? && c.ty == T32 {
      UnpackPack(c.value, 32);
    }
    hide Lower, Node, HasCond, PackConstant, UnpackConstant, Ops.Encode;
  }

  lemma NodeIdentity(e: Expr, next: nat)
    requires !HasCond(e)
    ensures Node(e, next) == e
  {
    LowerIdentity(e, next);
  }

  // The pass itself

  function Selects(ss: seq<Stmt>): nat {
    if ss == [] then 0 else (if ss[0].CallSelect? then 1 else 0) + Selects(ss[1..])
  }

  /** The conditionals the pass visits. */
  function Visited(e: Expr): nat
    decreases e, 1
  {
    match e
    case Cond(c, t, f, _) => 1 + Visited(c) + Visited(t) + Visited(f)
    case Op(_, args, _, _) => if SideEffects(e) && HasCond(e) then 0 else VisitedArgs(args)
    case Convert(a) => if SideEffects(e) && HasCond(e) then 0 else Visited(a)
    case _ => 0
  }

  function VisitedArgs(es: seq<Expr>): nat
    decreases es, 0
  {
    if es == [] then 0 else Visited(es[0]) + VisitedArgs(es[1..])
  }

  lemma {:induction false} VisitedNone(e: Expr)
    requires !HasCond(e)
    ensures Visited(e) == 0
    decreases e, 1
  {
    match e
    case Op(_, args, _, _) => VisitedArgsNone(args);
    case Convert(a) => VisitedNone(a);
    case _ =>
  }

  lemma {:induction false} VisitedArgsNone(es: seq<Expr>)
    requires forall i :: 0 <= i < |es| ==> !HasCond(es[i])
    ensures VisitedArgs(es) == 0
    decreases es, 0
  {
    if es != [] {
      VisitedNone(es[0]);
      VisitedArgsNone(es[1..]);
    }
  }

  /** A side-effecting operator is left alone, conditionals and all, and those are not even
      counted. */
  lemma GuardedUntouched(e: Expr, next: nat)
    requires !e.Cond? && SideEffects(e)
    ensures Lower(e, next) == Lowered(e, [], next) && Node(e, next) == e && Visited(e) == 0
  {
    if !HasCond(e) {
      LowerIdentity(e, next);
      VisitedNone(e);
    }
  }

  lemma ConcatFive(s: seq<Stmt>, a: seq<Stmt>, b: seq<Stmt>, c: seq<Stmt>, d: seq<Stmt>)
    ensures s + a + b + c + d == s + (a + b + c + d)
  {
  }

  lemma SelectsOne(a: Stmt)
    ensures Selects([a]) == if a.CallSelect? then 1 else 0
  {
  }

  lemma {:induction false} SelectsAppend(a: seq<Stmt>, b: seq<Stmt>)
    ensures Selects(a + b) == Selects(a) + Selects(b)
  {
    if a == [] {
      assert a + b == b;
    } else {
      assert (a + b)[1..] == a[1..] + b;
      SelectsAppend(a[1..], b);
    }
  }

  /** The insertion point and the counters of the pass. Trees are values here, so where the
      source writes into a node the methods also return the node as the call leaves it. */
  class Lowerer {
    var stmts: seq<Stmt>
    var next: nat
    var ternaryCount: nat
    var loweredCount: nat

    constructor ()
      ensures stmts == [] && next == 0 && ternaryCount == 0 && loweredCount == 0
    {
      stmts, next, ternaryCount, loweredCount := [], 0, 0, 0;
    }

    method Insert(s: Stmt)
      requires s.dst == next
      modifies this`stmts, this`next
      ensures stmts == old(stmts) + [s] && next == old(next) + 1
    {
      stmts := stmts + [s];
      next := next + 1;
    }

    method LowerCondExprTree(expr: Expr) returns (r: Expr, node: Expr)
      requires expr.Cond?
      modifies this
      ensures var l := Lower(expr, old(next));
        r == l.result && stmts == old(stmts) + l.stmts && next == l.next
      ensures node == Node(expr, old(next))
      ensures loweredCount - old(loweredCount) == Selects(stmts) - Selects(old(stmts))
      ensures ternaryCount == old(ternaryCount) + Visited(expr)
      decreases expr, 0
    {
      hide Selects, PackOperand, Choose;
      ternaryCount := ternaryCount + 1;
      ghost var n0, s0 := next, stmts;
      var cond, condNode := LowerCondExprInTree(expr.c);
      var trueVal, trueNode := LowerCondExprInTree(expr.t);
      var falseVal, falseNode := LowerCondExprInTree(expr.f);
      node := Cond(condNode, trueNode, falseNode, expr.ty);
      cond := Pack(cond);
      trueVal := Pack(trueVal);
      falseVal := Pack(falseVal);
      ghost var lc := Lower(expr.c, n0);
      ghost var lt := Lower(expr.t, lc.next);
      ghost var lf := Lower(expr.f, lt.next);
      ghost var choice := Choose(expr.ty, node, cond, trueVal, falseVal, lf.next);
      assert stmts == s0 + lc.stmts + lt.stmts + lf.stmts;
      r := Select(expr.ty, node, cond, trueVal, falseVal);
      ConcatFive(s0, lc.stmts, lt.stmts, lf.stmts, choice.stmts);
    }

    /** The tail of `lower_cond_expr_tree`, once the three operands are lowered and packed. */
    method Select(resultType: Type, node: Expr, cond: Expr, trueVal: Expr, falseVal: Expr) returns (r: Expr)
      modifies this
      ensures var l := Choose(resultType, node, cond, trueVal, falseVal, old(next));
        r == l.result && stmts == old(stmts) + l.stmts && next == l.next
      ensures loweredCount - old(loweredCount) == Selects(stmts) - Selects(old(stmts))
      ensures ternaryCount == old(ternaryCount)
    {
      hide Selects, PackConstant, UnpackConstant, HasSelect;
      if cond.Cst? {
        var known, zero := false, false;
        if cond.ty.Ternary? {
          var logical := TernaryUnpackConstant(cond.value, cond.ty);
          if logical.Some? {
            known, zero := true, logical.value == 0;
          }
        } else {
          known, zero := true, cond.value == 0;
        }
        if known {
          return if zero then falseVal else trueVal;
        }
      }
      assert KnownZero(cond) == None;
      hide KnownZero;
      if trueVal == falseVal {
        return trueVal;
      }
      ghost var s0, n0 := stmts, next;
      ghost var conv := if TypeOf(cond).Ternary? then [CallTt2b(n0, cond)] else [];
      var arg := cond;
      if TypeOf(cond).Ternary? {
        arg := Tmp(next, LONG_LONG);
        SelectsAppend(stmts, [CallTt2b(next, cond)]);
        SelectsOne(CallTt2b(next, cond));
        Insert(CallTt2b(next, cond));
      } else if TypeOf(cond) != LONG_LONG {
        arg := Convert(cond);
      }
      assert stmts == s0 + conv && next == n0 + |conv|;
      if !HasSelect(resultType, TypeOf(cond)) {
        return node;
      }
      r := Tmp(next, resultType);
      SelectsAppend(stmts, [CallSelect(next, arg, trueVal, falseVal)]);
      SelectsOne(CallSelect(next, arg, trueVal, falseVal));
      Insert(CallSelect(next, arg, trueVal, falseVal));
      assert stmts == s0 + (conv + [CallSelect(n0 + |conv|, arg, trueVal, falseVal)]);
      loweredCount := loweredCount + 1;
    }

    method LowerCondExprInTree(expr: Expr) returns (r: Expr, node: Expr)
      modifies this
      ensures var l := Lower(expr, old(next));
        r == l.result && stmts == old(stmts) + l.stmts && next == l.next
      ensures node == Node(expr, old(next))
      ensures loweredCount - old(loweredCount) == Selects(stmts) - Selects(old(stmts))
      ensures ternaryCount == old(ternaryCount) + Visited(expr)
      ensures !expr.Cond? && SideEffects(expr) ==>
        r == expr && node == expr && stmts == old(stmts) && next == old(next) &&
        ternaryCount == old(ternaryCount) && loweredCount == old(loweredCount)
      decreases expr, 1
    {
      if !expr.Cond? && SideEffects(expr) {
        GuardedUntouched(expr, next);
      }
      if expr.Cond? {
        r, node := LowerCondExprTree(expr);
        return;
      }
      if SideEffects(expr) && HasCond(expr) {
        return expr, expr;
      }
      match expr {
        case Op(code, args, ty, effect) =>
          var lowered := LowerOperands(expr);
          r := Op(code, lowered, ty, effect);
        case Convert(a) =>
          var lowered, _ := LowerCondExprInTree(a);
          r := Convert(lowered);
        case _ =>
          r := expr;
      }
      node := r;
    }

    /** The loop over the operands of an expression. */
    method LowerOperands(expr: Expr) returns (out: seq<Expr>)
      requires expr.Op?
      modifies this
      ensures var l := LowerArgs(expr.args, old(next));
        out == l.result && stmts == old(stmts) + l.stmts && next == l.next
      ensures loweredCount - old(loweredCount) == Selects(stmts) - Selects(old(stmts))
      ensures ternaryCount == old(ternaryCount) + VisitedArgs(expr.args)
      decreases expr, 0
    {
      hide Selects, Lower;
      out := [];
      var args := expr.args;
      ghost var all := LowerArgs(args, next);
      assert args[0..] == args;
      for i := 0 to |args|
        invariant all.result == out + LowerArgs(args[i..], next).result
        invariant old(stmts) + all.stmts == stmts + LowerArgs(args[i..], next).stmts
        invariant all.next == LowerArgs(args[i..], next).next
        invariant loweredCount - old(loweredCount) == Selects(stmts) - Selects(old(stmts))
        invariant ternaryCount + VisitedArgs(args[i..]) == old(ternaryCount) + VisitedArgs(args)
      {
        ghost var n0, s0 := next, stmts;
        assert args[i..][0] == args[i] && args[i..][1..] == args[i + 1..];
        var lowered, _ := LowerCondExprInTree(args[i]);
        ghost var h, rest := Lower(args[i], n0), LowerArgs(args[i + 1..], next);
        assert s0 + (h.stmts + rest.stmts) == stmts + rest.stmts;
        assert out + ([lowered] + rest.result) == out + [lowered] + rest.result;
        out := out + [lowered];
      }
    }

    method Pack(e: Expr) returns (r: Expr)
      ensures r == PackOperand(e)
    {
      r := e;
      if e.Cst? {
        var packed := TernaryPackConstant(e.value, e.ty);
        if packed.Some? {
          r := Cst(packed.value, e.ty);
        }
      }
    }
  }
}
