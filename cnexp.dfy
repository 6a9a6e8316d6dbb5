/** The closed-form ("cnexp") solver of modcc: each derivative assignment
    `s' = rhs` whose right-hand side is linear in `s` alone is replaced by an
    exact exponential update of `s` over one time step `dt`. */
module Cnexp {
  import opened Wrappers
  import opened Ast
  import opened Blocks
  import opened LinearTest
  import opened Semantics

  /** What visiting statements produces: the statements pushed onto
      `statements_`, the diagnostics recorded, and the next unused
      temporary counter. */
  datatype Emitted = Emitted(stmts: seq<Stmt>, diags: seq<Diag>, next: nat)

  /** The four update forms, chosen by the linear decomposition of the
      right-hand side; the gating form carries the denominator `a` and the
      numerator's constant `b` of `s' = (b - s)/a`. */
  datatype Form =
    | NotDiagonalForm
    | ConstantForm
    | HomogeneousForm
    | GatingForm(denom: Expr, target: Expr)
    | AffineForm

  /** The syntactic gating pattern: the right-hand side is literally a
      division, its denominator does not mention `s`, and the coefficient of
      `s` in the numerator is the literal -1. */
  function GatingMatch(s: Name, rhs: Expr, lt: LinearTestFn): Option<(Expr, Expr)> {
    if rhs.Bin? && rhs.op == Div && s !in FreeVars(rhs.right) then
      var r := lt(rhs.left, [s]);
      if ExprValue(Coef(r, s)) == Some(-1.0) then Some((rhs.right, r.constant)) else None
    else None
  }

  function Classify(s: Name, rhs: Expr, dvars: seq<Name>, lt: LinearTestFn): Form {
    var r := lt(rhs, dvars);
    if !Monolinear(r, s) then NotDiagonalForm
    else if s !in r.coef || IsZero(r.coef[s]) then ConstantForm
    else if r.isHomogeneous then HomogeneousForm
    else
      match GatingMatch(s, rhs, lt)
      case Some((d, c)) => GatingForm(d, c)
      case None => AffineForm
  }

  function ExpCall(x: Expr): Expr {
    Call(EXP_PADE_11, [x])
  }

  /** A statement that declares or initialises a temporary handed out in [lo, hi). */
  predicate IsTempSetup(st: Stmt, lo: nat, hi: nat) {
    (st.LocalDecl? && exists x | x in st.vars :: st.vars == {x} && x.Temp? && lo <= x.k < hi)
    || (st.Assign? && st.lhs.Var? && st.lhs.name.Temp? && lo <= st.lhs.name.k < hi)
  }

  /** The statements emitted for the derivative assignment `s' = rhs`. */
  function CnexpUpdate(s: Name, rhs: Expr, dvars: seq<Name>, lt: LinearTestFn, next: nat): Emitted
  {
    var r := lt(rhs, dvars);
    match Classify(s, rhs, dvars, lt)
    case NotDiagonalForm => Emitted([], [NotDiagonal], next)
    case ConstantForm =>
      // s' = b becomes s = s + b_*dt
      var b := Temp("b_", next);
      Emitted(LocalAssign(b, r.constant)
              + [Assign(Var(s), Bin(Add, Ident(s), Bin(Mul, Ident(b), Ident(DT))))], [], next + 1)
    case HomogeneousForm =>
      // s' = a*s becomes s = s*exp_pade_11(a_*dt)
      var a := Temp("a_", next);
      Emitted(LocalAssign(a, r.coef[s])
              + [Assign(Var(s), Bin(Mul, Ident(s), ExpCall(Bin(Mul, Ident(a), Ident(DT)))))], [], next + 1)
    case GatingForm(d, c) =>
      // s' = (b - s)/a becomes s = b_ + (s - b_)*exp_pade_11(-dt/a_)
      var a := Temp("a_", next);
      var b := Temp("b_", next + 1);
      Emitted(LocalAssign(a, d) + LocalAssign(b, c)
              + [Assign(Var(s), Bin(Add, Ident(b),
                   Bin(Mul, Bin(Sub, Ident(s), Ident(b)), ExpCall(Bin(Div, Neg(Ident(DT)), Ident(a))))))],
              [], next + 2)
    case AffineForm =>
      // s' = a*s + b becomes s = -ba_ + (s + ba_)*exp_pade_11(a_*dt) with ba_ = b/a_
      var a := Temp("a_", next);
      var ba := Temp("ba_", next + 1);
      Emitted(LocalAssign(a, r.coef[s]) + LocalAssign(ba, Bin(Div, r.constant, Ident(a)))
              + [Assign(Var(s), Bin(Add, Neg(Ident(ba)),
                   Bin(Mul, Bin(Add, Ident(s), Ident(ba)), ExpCall(Bin(Mul, Ident(a), Ident(DT))))))],
              [], next + 2)
  }

  /** The shape of the emitted update: nothing but the diagnostic when the
      right-hand side is not linear in `s` alone; otherwise one or two fresh
      temporaries, each declared and initialised, then the assignment to `s`. */
  lemma CnexpUpdateShape(s: Name, rhs: Expr, dvars: seq<Name>, lt: LinearTestFn, next: nat)
    ensures var out := CnexpUpdate(s, rhs, dvars, lt, next);
      && (out.diags == [] <==> Monolinear(lt(rhs, dvars), s))
      && (out.diags != [] ==> out.diags == [NotDiagonal] && out.stmts == [] && out.next == next)
      && (out.diags == [] ==>
           && |out.stmts| == 1 + 2 * (out.next - next)
           && (out.next == next + 1 || out.next == next + 2)
           && out.stmts[|out.stmts| - 1].Assign?
           && out.stmts[|out.stmts| - 1].lhs == Var(s)
           && forall i :: 0 <= i < |out.stmts| - 1 ==> IsTempSetup(out.stmts[i], next, out.next))
  {
  }

  /** Visiting one statement: derivative assignments are solved, everything
      else is copied unchanged. */
  function StmtUpdate(st: Stmt, dvars: seq<Name>, lt: LinearTestFn, next: nat): Emitted {
    if IsDerivAssign(st) then CnexpUpdate(st.lhs.name, st.rhs, dvars, lt, next)
    else Emitted([st], [], next)
  }

  /** Visiting the statements of a block in order. */
  function CnexpStmts(block: seq<Stmt>, dvars: seq<Name>, lt: LinearTestFn, next: nat): Emitted {
    if block == [] then Emitted([], [], next)
    else
      var pre := CnexpStmts(block[..|block| - 1], dvars, lt, next);
      var last := StmtUpdate(block[|block| - 1], dvars, lt, pre.next);
      Emitted(pre.stmts + last.stmts, pre.diags + last.diags, last.next)
  }

  /** The derivative assignments of a block that are not diagonal linear. */
  function NonDiagonal(block: seq<Stmt>, dvars: seq<Name>, lt: LinearTestFn): seq<Stmt> {
    if block == [] then []
    else
      var last := block[|block| - 1];
      NonDiagonal(block[..|block| - 1], dvars, lt)
      + (if IsDerivAssign(last) && !Monolinear(lt(last.rhs, dvars), last.lhs.name) then [last] else [])
  }

  /** One "System not diagonal linear" diagnostic per offending derivative
      assignment, and no other diagnostic. */
  lemma {:induction false} CnexpDiagnostics(block: seq<Stmt>, dvars: seq<Name>, lt: LinearTestFn, next: nat)
    ensures var out := CnexpStmts(block, dvars, lt, next);
      |out.diags| == |NonDiagonal(block, dvars, lt)| && forall i :: 0 <= i < |out.diags| ==> out.diags[i] == NotDiagonal
  {
    if block != [] {
      CnexpDiagnostics(block[..|block| - 1], dvars, lt, next);
    }
  }

  /** The statement count: each copied statement once, each solved equation
      its temporaries' declaration and assignment and one update. */
  lemma {:induction false} CnexpStmtCount(block: seq<Stmt>, dvars: seq<Name>, lt: LinearTestFn, next: nat)
    ensures var out := CnexpStmts(block, dvars, lt, next);
      out.next >= next &&
      |out.stmts| == |block| - |NonDiagonal(block, dvars, lt)| + 2 * (out.next - next)
  {
    if block != [] {
      CnexpStmtCount(block[..|block| - 1], dvars, lt, next);
    }
  }

  /** The exact solution of s' = a*s + b after a step dt from s0, where
      `e` is the exponential of a*dt. */
  function AffineStep(a: real, b: real, s0: real, dt: real, e: real): real {
    if a == 0.0 then s0 + b * dt else -(b / a) + (s0 + b / a) * e
  }

  /** The value of the coefficient of `s`, zero when it has none. */
  function CoefValue(r: LinearResult, s: Name, env: Env, call: CallFn): Option<real> {
    if s in r.coef then Eval(r.coef[s], env, call) else Some(0.0)
  }

  lemma {:induction false} ZeroLiteralValue(e: Expr, env: Env, call: CallFn)
    requires IsZero(e)
    ensures Eval(e, env, call) == Some(0.0)
  {
  }

  /** Running the constant-form update, for s = s0 and dt = dt. */
  lemma {:induction false} ExecConstantUpdate(s: Name, t: Name, c: Expr, env: Env, call: CallFn, b: real, s0: real, dt: real, v: real)
    requires s != DT && s != t && DT != t && s in env && DT in env && env[s] == s0 && env[DT] == dt
    requires Eval(c, env, call) == Some(b) && v == s0 + b * dt
    ensures Exec(LocalAssign(t, c) + [Assign(Var(s), Bin(Add, Ident(s), Bin(Mul, Ident(t), Ident(DT))))], env, call)
            == Some(env[t := b][s := v])
  {
    var upd := Bin(Add, Ident(s), Bin(Mul, Ident(t), Ident(DT)));
    ExecLocalAssign(t, c, [Assign(Var(s), upd)], env, call, b);
    var env1 := env[t := b];
    assert Eval(Ident(s), env1, call) == Some(s0);
    assert Eval(Ident(t), env1, call) == Some(b);
    assert Eval(Ident(DT), env1, call) == Some(dt);
    EvalMul(Ident(t), Ident(DT), env1, call, b, dt, b * dt);
    EvalAdd(Ident(s), Bin(Mul, Ident(t), Ident(DT)), env1, call, s0, b * dt, s0 + b * dt);
    ExecAssign(s, upd, env1, call, s0 + b * dt);
  }

  /** Running the homogeneous-form update, for s = s0 and dt = dt. */
  lemma {:induction false} ExecHomogeneousUpdate(s: Name, t: Name, c: Expr, env: Env, call: CallFn, a: real, s0: real, dt: real, x: real, v: real)
    requires s != DT && s != t && DT != t && s in env && DT in env && env[s] == s0 && env[DT] == dt
    requires Eval(c, env, call) == Some(a) && x == a * dt && v == s0 * call(EXP_PADE_11, [x])
    ensures Exec(LocalAssign(t, c) + [Assign(Var(s), Bin(Mul, Ident(s), ExpCall(Bin(Mul, Ident(t), Ident(DT)))))], env, call)
            == Some(env[t := a][s := v])
  {
    var upd := Bin(Mul, Ident(s), ExpCall(Bin(Mul, Ident(t), Ident(DT))));
    ExecLocalAssign(t, c, [Assign(Var(s), upd)], env, call, a);
    var env1 := env[t := a];
    assert Eval(Ident(s), env1, call) == Some(s0);
    assert Eval(Ident(t), env1, call) == Some(a);
    assert Eval(Ident(DT), env1, call) == Some(dt);
    EvalMul(Ident(t), Ident(DT), env1, call, a, dt, x);
    EvalCall1(EXP_PADE_11, Bin(Mul, Ident(t), Ident(DT)), env1, call, x);
    EvalMul(Ident(s), ExpCall(Bin(Mul, Ident(t), Ident(DT))), env1, call,
            s0, call(EXP_PADE_11, [x]), s0 * call(EXP_PADE_11, [x]));
    ExecAssign(s, upd, env1, call, v);
  }

  /** Running the general-form update, for s = s0 and dt = dt. */
  lemma {:induction false} ExecAffineUpdate(s: Name, t: Name, ba: Name, c: Expr, k: Expr, env: Env, call: CallFn,
                         a: real, b: real, q: real, s0: real, dt: real, x: real, v: real)
    requires s != DT && s != t && DT != t && s != ba && DT != ba && t != ba
    requires x == a * dt && v == -q + (s0 + q) * call(EXP_PADE_11, [x])
    requires s in env && DT in env && env[s] == s0 && env[DT] == dt
    requires t !in FreeVars(k) && a != 0.0 && q == b / a
    requires Eval(c, env, call) == Some(a) && Eval(k, env, call) == Some(b)
    ensures Exec(LocalAssign(t, c) + (LocalAssign(ba, Bin(Div, k, Ident(t)))
              + [Assign(Var(s), Bin(Add, Neg(Ident(ba)),
                   Bin(Mul, Bin(Add, Ident(s), Ident(ba)), ExpCall(Bin(Mul, Ident(t), Ident(DT))))))]), env, call)
            == Some(env[t := a][ba := q][s := v])
  {
    var e := ExpCall(Bin(Mul, Ident(t), Ident(DT)));
    var upd := Bin(Add, Neg(Ident(ba)), Bin(Mul, Bin(Add, Ident(s), Ident(ba)), e));
    var quot := Bin(Div, k, Ident(t));
    ExecLocalAssign(t, c, LocalAssign(ba, quot) + [Assign(Var(s), upd)], env, call, a);
    var env1 := env[t := a];
    EvalUpdate(k, env, call, t, a);
    assert Eval(Ident(t), env1, call) == Some(a);
    EvalDiv(k, Ident(t), env1, call, b, a, q);
    ExecLocalAssign(ba, quot, [Assign(Var(s), upd)], env1, call, q);
    var env2 := env1[ba := q];
    assert Eval(Ident(s), env2, call) == Some(s0);
    assert Eval(Ident(t), env2, call) == Some(a);
    assert Eval(Ident(ba), env2, call) == Some(q);
    assert Eval(Ident(DT), env2, call) == Some(dt);
    EvalMul(Ident(t), Ident(DT), env2, call, a, dt, x);
    EvalCall1(EXP_PADE_11, Bin(Mul, Ident(t), Ident(DT)), env2, call, x);
    EvalAdd(Ident(s), Ident(ba), env2, call, s0, q, s0 + q);
    EvalMul(Bin(Add, Ident(s), Ident(ba)), e, env2, call,
            s0 + q, call(EXP_PADE_11, [x]), (s0 + q) * call(EXP_PADE_11, [x]));
    assert Eval(Neg(Ident(ba)), env2, call) == Some(-q);
    EvalAdd(Neg(Ident(ba)), Bin(Mul, Bin(Add, Ident(s), Ident(ba)), e), env2, call,
            -q, (s0 + q) * call(EXP_PADE_11, [x]), -q + (s0 + q) * call(EXP_PADE_11, [x]));
    ExecAssign(s, upd, env2, call, v);
  }

  /** Evaluating the gating-form update expression once both temporaries are bound. */
  lemma {:induction false} EvalGatingUpdate(s: Name, ta: Name, tb: Name, env: Env, call: CallFn, a: real, b: real, s0: real, dt: real, x: real)
    requires s in env && ta in env && tb in env && DT in env
    requires env[s] == s0 && env[ta] == a && env[tb] == b && env[DT] == dt && a != 0.0 && x == -dt / a
    ensures Eval(Bin(Add, Ident(tb), Bin(Mul, Bin(Sub, Ident(s), Ident(tb)), ExpCall(Bin(Div, Neg(Ident(DT)), Ident(ta))))), env, call)
            == Some(b + (s0 - b) * call(EXP_PADE_11, [x]))
  {
    var e := ExpCall(Bin(Div, Neg(Ident(DT)), Ident(ta)));
    assert Eval(Ident(DT), env, call) == Some(dt);
    assert Eval(Neg(Ident(DT)), env, call) == Some(-dt);
    EvalDiv(Neg(Ident(DT)), Ident(ta), env, call, -dt, a, x);
    EvalCall1(EXP_PADE_11, Bin(Div, Neg(Ident(DT)), Ident(ta)), env, call, x);
    EvalSub(Ident(s), Ident(tb), env, call, s0, b, s0 - b);
    EvalMul(Bin(Sub, Ident(s), Ident(tb)), e, env, call,
            s0 - b, call(EXP_PADE_11, [x]), (s0 - b) * call(EXP_PADE_11, [x]));
    EvalAdd(Ident(tb), Bin(Mul, Bin(Sub, Ident(s), Ident(tb)), e), env, call,
            b, (s0 - b) * call(EXP_PADE_11, [x]), b + (s0 - b) * call(EXP_PADE_11, [x]));
  }

  /** Running the gating-form update, for s = s0 and dt = dt. */
  lemma {:induction false} ExecGatingUpdate(s: Name, ta: Name, tb: Name, d: Expr, c: Expr, env: Env, call: CallFn,
                         a: real, b: real, s0: real, dt: real, x: real)
    requires s != DT && s != ta && DT != ta && s != tb && DT != tb && ta != tb
    requires s in env && DT in env && env[s] == s0 && env[DT] == dt
    requires ta !in FreeVars(c) && a != 0.0 && x == -dt / a
    requires Eval(d, env, call) == Some(a) && Eval(c, env, call) == Some(b)
    ensures Exec(LocalAssign(ta, d) + (LocalAssign(tb, c)
              + [Assign(Var(s), Bin(Add, Ident(tb),
                   Bin(Mul, Bin(Sub, Ident(s), Ident(tb)), ExpCall(Bin(Div, Neg(Ident(DT)), Ident(ta))))))]), env, call)
            == Some(env[ta := a][tb := b][s := b + (s0 - b) * call(EXP_PADE_11, [x])])
  {
    var upd := Bin(Add, Ident(tb), Bin(Mul, Bin(Sub, Ident(s), Ident(tb)), ExpCall(Bin(Div, Neg(Ident(DT)), Ident(ta)))));
    ExecLocalAssign(ta, d, LocalAssign(tb, c) + [Assign(Var(s), upd)], env, call, a);
    EvalUpdate(c, env, call, ta, a);
    ExecLocalAssign(tb, c, [Assign(Var(s), upd)], env[ta := a], call, b);
    var env2 := env[ta := a][tb := b];
    EvalGatingUpdate(s, ta, tb, env2, call, a, b, s0, dt, x);
    ExecAssign(s, upd, env2, call, b + (s0 - b) * call(EXP_PADE_11, [x]));
  }

  /** Running the statements succeeds, gives `s` the value `v`, and leaves
      every other variable of the program as it was in `env` (fresh
      temporaries may be added). */
  predicate SetsOnly(res: Option<Env>, env: Env, s: Name, v: real) {
    && res.Some? && s in res.value && res.value[s] == v
    && forall x :: x in env && x.User? && x != s ==> x in res.value && res.value[x] == env[x]
  }

  /** The constant, homogeneous and general forms compute the exact update
      for the coefficient `a` and constant `b` found by linear_test, with
      exp_pade_11 in place of the exponential, given that a homogeneous
      decomposition has a zero constant (ConstantVanishes) and that
      exp_pade_11(0) is 1;
      nothing but `s` and fresh temporaries is assigned. */
  lemma {:induction false} AffineUpdateMeaning(s: Name, rhs: Expr, dvars: seq<Name>, lt: LinearTestFn, next: nat,
                            env: Env, call: CallFn, a: real, b: real)
    requires Classify(s, rhs, dvars, lt) in {ConstantForm, HomogeneousForm, AffineForm}
    requires s.User? && s != DT && s in env && DT in env
    requires TempsBelow(lt(rhs, dvars).constant, next)
    requires CoefValue(lt(rhs, dvars), s, env, call) == Some(a)
    requires Eval(lt(rhs, dvars).constant, env, call) == Some(b)
    requires ConstantVanishes(lt(rhs, dvars), env, call)
    requires call(EXP_PADE_11, [0.0]) == 1.0
    requires Classify(s, rhs, dvars, lt) == AffineForm ==> a != 0.0
    ensures SetsOnly(Exec(CnexpUpdate(s, rhs, dvars, lt, next).stmts, env, call), env, s,
                     AffineStep(a, b, env[s], env[DT], call(EXP_PADE_11, [a * env[DT]])))
  {
    var r := lt(rhs, dvars);
    match Classify(s, rhs, dvars, lt)
    case ConstantForm =>
      if s in r.coef {
        ZeroLiteralValue(r.coef[s], env, call);
      }
      ConstantMeaning(s, rhs, dvars, lt, next, env, call, a, b);
    case HomogeneousForm =>
      HomogeneousMeaning(s, rhs, dvars, lt, next, env, call, a, b);
    case AffineForm =>
      GeneralMeaning(s, rhs, dvars, lt, next, env, call, a, b);
  }

  /** A monolinear decomposition over variables that all have values
      combines to `a*s + b`, however often `s` occurs in `vars`. */
  lemma {:induction false} MonolinearCombination(r: LinearResult, s: Name, vars: seq<Name>, env: Env, call: CallFn,
                                                 a: real, b: real)
    requires Monolinear(r, s)
    requires forall v :: v in vars ==> v in env
    requires CoefValue(r, s, env, call) == Some(a) && Eval(r.constant, env, call) == Some(b)
    ensures Combination(r, vars, env, call) == Some((if s in vars then a * env[s] else 0.0) + b)
    decreases |vars|
  {
    if vars != [] {
      var init := vars[..|vars| - 1];
      var v := vars[|vars| - 1];
      MonolinearCombination(r, s, init, env, call, a, b);
      assert vars == init + [v] && v in vars;
      MonolinearStep(r, s, init, v, env, call, a, b);
    }
  }

  lemma {:induction false} MonolinearStep(r: LinearResult, s: Name, init: seq<Name>, v: Name, env: Env, call: CallFn,
                                          a: real, b: real)
    requires Monolinear(r, s)
    requires v in env && (s in init ==> s in env)
    requires CoefValue(r, s, env, call) == Some(a) && Eval(r.constant, env, call) == Some(b)
    requires Combination(r, init, env, call) == Some((if s in init then a * env[s] else 0.0) + b)
    ensures Combination(r, init + [v], env, call) == Some((if s in init + [v] then a * env[s] else 0.0) + b)
  {
    var p := if s in init then a * env[s] else 0.0;
    assert (s in init + [v]) == (s in init || s == v);
    if v in init || v !in r.coef {
      CombinationSkip(r, init, v, env, call);
      if v == s && v !in init {
        assert a == 0.0;
        assert a * env[s] + b == p + b;
      }
    } else if v != s {
      ZeroLiteralValue(r.coef[v], env, call);
      CombinationAdd(r, init, v, env, call, p + b, 0.0, p + b);
    } else {
      CombinationAdd(r, init, v, env, call, b, a, a * env[s] + b);
    }
  }

  /** When linear_test's answer describes the right-hand side, the
      constant, homogeneous and general updates solve the ODE as written:
      `rhs` evaluates to `a*s + b`, and running the output sets `s` to the
      exact solution of `s' = a*s + b` over one step. */
  lemma {:induction false} CnexpSolvesOde(s: Name, rhs: Expr, dvars: seq<Name>, lt: LinearTestFn, next: nat,
                                          env: Env, call: CallFn, a: real, b: real)
    requires Classify(s, rhs, dvars, lt) in {ConstantForm, HomogeneousForm, AffineForm}
    requires s.User? && s != DT && s in env && DT in env
    requires TempsBelow(lt(rhs, dvars).constant, next)
    requires CoefValue(lt(rhs, dvars), s, env, call) == Some(a)
    requires Eval(lt(rhs, dvars).constant, env, call) == Some(b)
    requires call(EXP_PADE_11, [0.0]) == 1.0
    requires Classify(s, rhs, dvars, lt) == AffineForm ==> a != 0.0
    requires Decomposes(lt(rhs, dvars), rhs, dvars, env, call)
    requires s in dvars && forall v :: v in dvars ==> v in env
    ensures Eval(rhs, env, call) == Some(a * env[s] + b)
    ensures SetsOnly(Exec(CnexpUpdate(s, rhs, dvars, lt, next).stmts, env, call), env, s,
                     AffineStep(a, b, env[s], env[DT], call(EXP_PADE_11, [a * env[DT]])))
  {
    MonolinearCombination(lt(rhs, dvars), s, dvars, env, call, a, b);
    AffineUpdateMeaning(s, rhs, dvars, lt, next, env, call, a, b);
  }

  lemma {:induction false} ConstantMeaning(s: Name, rhs: Expr, dvars: seq<Name>, lt: LinearTestFn, next: nat,
                        env: Env, call: CallFn, a: real, b: real)
    requires Classify(s, rhs, dvars, lt) == ConstantForm
    requires s.User? && s != DT && s in env && DT in env
    requires Eval(lt(rhs, dvars).constant, env, call) == Some(b) && a == 0.0
    ensures SetsOnly(Exec(CnexpUpdate(s, rhs, dvars, lt, next).stmts, env, call), env, s,
                     AffineStep(a, b, env[s], env[DT], call(EXP_PADE_11, [a * env[DT]])))
  {
    var t := Temp("b_", next);
    assert CnexpUpdate(s, rhs, dvars, lt, next).stmts
        == LocalAssign(t, lt(rhs, dvars).constant) + [Assign(Var(s), Bin(Add, Ident(s), Bin(Mul, Ident(t), Ident(DT))))];
    ConstantStep(a, b, env[s], env[DT], call(EXP_PADE_11, [a * env[DT]]));
    ExecConstantUpdate(s, t, lt(rhs, dvars).constant, env, call, b, env[s], env[DT],
                       AffineStep(a, b, env[s], env[DT], call(EXP_PADE_11, [a * env[DT]])));
  }

  lemma {:induction false} HomogeneousMeaning(s: Name, rhs: Expr, dvars: seq<Name>, lt: LinearTestFn, next: nat,
                           env: Env, call: CallFn, a: real, b: real)
    requires Classify(s, rhs, dvars, lt) == HomogeneousForm
    requires s.User? && s != DT && s in env && DT in env
    requires s in lt(rhs, dvars).coef && Eval(lt(rhs, dvars).coef[s], env, call) == Some(a)
    requires b == 0.0 && call(EXP_PADE_11, [0.0]) == 1.0
    ensures SetsOnly(Exec(CnexpUpdate(s, rhs, dvars, lt, next).stmts, env, call), env, s,
                     AffineStep(a, b, env[s], env[DT], call(EXP_PADE_11, [a * env[DT]])))
  {
    var t := Temp("a_", next);
    var c := lt(rhs, dvars).coef[s];
    assert CnexpUpdate(s, rhs, dvars, lt, next).stmts
        == LocalAssign(t, c) + [Assign(Var(s), Bin(Mul, Ident(s), ExpCall(Bin(Mul, Ident(t), Ident(DT)))))];
    if a == 0.0 {
      CallArg(call, EXP_PADE_11, a * env[DT], 0.0);
    }
    HomogeneousStep(a, b, env[s], env[DT], call(EXP_PADE_11, [a * env[DT]]));
    ExecHomogeneousUpdate(s, t, c, env, call, a, env[s], env[DT], a * env[DT],
                          AffineStep(a, b, env[s], env[DT], call(EXP_PADE_11, [a * env[DT]])));
  }

  lemma {:induction false} GeneralMeaning(s: Name, rhs: Expr, dvars: seq<Name>, lt: LinearTestFn, next: nat,
                       env: Env, call: CallFn, a: real, b: real)
    requires Classify(s, rhs, dvars, lt) == AffineForm
    requires s.User? && s != DT && s in env && DT in env
    requires TempsBelow(lt(rhs, dvars).constant, next)
    requires s in lt(rhs, dvars).coef && Eval(lt(rhs, dvars).coef[s], env, call) == Some(a)
    requires Eval(lt(rhs, dvars).constant, env, call) == Some(b) && a != 0.0
    ensures SetsOnly(Exec(CnexpUpdate(s, rhs, dvars, lt, next).stmts, env, call), env, s,
                     AffineStep(a, b, env[s], env[DT], call(EXP_PADE_11, [a * env[DT]])))
  {
    var r := lt(rhs, dvars);
    var t := Temp("a_", next);
    var ba := Temp("ba_", next + 1);
    assert t !in FreeVars(r.constant);
    assert CnexpUpdate(s, rhs, dvars, lt, next).stmts
        == LocalAssign(t, r.coef[s]) + (LocalAssign(ba, Bin(Div, r.constant, Ident(t)))
              + [Assign(Var(s), Bin(Add, Neg(Ident(ba)),
                   Bin(Mul, Bin(Add, Ident(s), Ident(ba)), ExpCall(Bin(Mul, Ident(t), Ident(DT))))))]);
    assert (b / a) * a == b;
    AffineStepNonzero(a, b, env[s], env[DT], call(EXP_PADE_11, [a * env[DT]]), b / a);
    ExecAffineUpdate(s, t, ba, r.coef[s], r.constant, env, call, a, b, b / a, env[s], env[DT], a * env[DT],
                     AffineStep(a, b, env[s], env[DT], call(EXP_PADE_11, [a * env[DT]])));
  }

  /** With a zero coefficient the exact update is the Euler step. */
  lemma ConstantStep(a: real, b: real, s0: real, dt: real, e: real)
    requires a == 0.0
    ensures AffineStep(a, b, s0, dt, e) == s0 + b * dt
  {
  }

  lemma CallArg(call: CallFn, f: string, x: real, y: real)
    requires x == y
    ensures call(f, [x]) == call(f, [y])
  {
  }

  /** With no constant, the exact update is a pure scaling, provided the
      exponential of 0 is 1. */
  lemma HomogeneousStep(a: real, b: real, s0: real, dt: real, e: real)
    requires b == 0.0 && (a == 0.0 ==> e == 1.0)
    ensures AffineStep(a, b, s0, dt, e) == s0 * e
  {
    if a != 0.0 {
      AffineStepNonzero(a, b, s0, dt, e, 0.0);
    }
  }

  /** The gating form computes the exact update of s' = (b - s)/a, whose
      coefficient is -1/a and whose constant is b/a, for the denominator `a`
      and the numerator's constant `b`: with c = -1/a the exponential is
      taken of c*dt = -dt/a. */
  lemma {:induction false} GatingUpdateMeaning(s: Name, rhs: Expr, dvars: seq<Name>, lt: LinearTestFn, next: nat,
                            env: Env, call: CallFn, a: real, b: real)
    requires Classify(s, rhs, dvars, lt).GatingForm?
    requires s.User? && s != DT && s in env && DT in env
    requires TempsBelow(Classify(s, rhs, dvars, lt).target, next)
    requires Eval(Classify(s, rhs, dvars, lt).denom, env, call) == Some(a) && a != 0.0
    requires Eval(Classify(s, rhs, dvars, lt).target, env, call) == Some(b)
    ensures SetsOnly(Exec(CnexpUpdate(s, rhs, dvars, lt, next).stmts, env, call), env, s,
                     AffineStep(-1.0 / a, b / a, env[s], env[DT], call(EXP_PADE_11, [-env[DT] / a])))
  {
    var f := Classify(s, rhs, dvars, lt);
    var out := CnexpUpdate(s, rhs, dvars, lt, next);
    var ta := Temp("a_", next);
    var tb := Temp("b_", next + 1);
    assert ta !in FreeVars(f.target);
    ExecGatingUpdate(s, ta, tb, f.denom, f.target, env, call, a, b, env[s], env[DT], -env[DT] / a);
    assert out.stmts == LocalAssign(ta, f.denom) + (LocalAssign(tb, f.target)
              + [Assign(Var(s), Bin(Add, Ident(tb),
                   Bin(Mul, Bin(Sub, Ident(s), Ident(tb)), ExpCall(Bin(Div, Neg(Ident(DT)), Ident(ta))))))]);
    GatingIsAffineStep(a, b, env[s], env[DT], call(EXP_PADE_11, [-env[DT] / a]));
  }

  /** When linear_test's answer describes the numerator, the gating update
      solves the ODE as written: `rhs` evaluates to `(b - s)/a`, that is
      `(-1/a)*s + b/a`, and running the output sets `s` to the exact
      solution of that ODE over one step. */
  lemma {:induction false} GatingSolvesOde(s: Name, rhs: Expr, dvars: seq<Name>, lt: LinearTestFn, next: nat,
                                           env: Env, call: CallFn, a: real, b: real)
    requires Classify(s, rhs, dvars, lt).GatingForm?
    requires s.User? && s != DT && s in env && DT in env
    requires TempsBelow(Classify(s, rhs, dvars, lt).target, next)
    requires Eval(Classify(s, rhs, dvars, lt).denom, env, call) == Some(a) && a != 0.0
    requires Eval(Classify(s, rhs, dvars, lt).target, env, call) == Some(b)
    requires rhs.Bin? && Decomposes(lt(rhs.left, [s]), rhs.left, [s], env, call) && lt(rhs.left, [s]).isLinear
    ensures Eval(rhs, env, call) == Some((-1.0 / a) * env[s] + b / a)
    ensures SetsOnly(Exec(CnexpUpdate(s, rhs, dvars, lt, next).stmts, env, call), env, s,
                     AffineStep(-1.0 / a, b / a, env[s], env[DT], call(EXP_PADE_11, [-env[DT] / a])))
  {
    var f := Classify(s, rhs, dvars, lt);
    var r := lt(rhs.left, [s]);
    assert GatingMatch(s, rhs, lt) == Some((f.denom, f.target));
    assert s in r.coef && ExprValue(Some(r.coef[s])) == Some(-1.0);
    assert Eval(r.coef[s], env, call) == Some(-1.0);
    assert [s][..0] == [];
    assert Combination(r, [s], env, call) == Some(b + -1.0 * env[s]);
    assert rhs == Bin(Div, rhs.left, f.denom);
    EvalDiv(rhs.left, f.denom, env, call, b + -1.0 * env[s], a, (-1.0 / a) * env[s] + b / a);
    GatingUpdateMeaning(s, rhs, dvars, lt, next, env, call, a, b);
  }

  /** The gating shortcut is the general update in disguise: for
      s' = (b - s)/a the decomposition is s' = (-1/a)*s + b/a, and the
      general form's update for that coefficient and constant, with `e` the
      exponential of -dt/a, is the gating form's b + (s - b)*e. */
  lemma GatingIsAffineStep(a: real, b: real, s0: real, dt: real, e: real)
    requires a != 0.0
    ensures AffineStep(-1.0 / a, b / a, s0, dt, e) == b + (s0 - b) * e
  {
    var c := -1.0 / a;
    assert c * a == -1.0;
    assert (-b) * c * a == b;
    assert (-b) * c == b / a;
    AffineStepNonzero(c, b / a, s0, dt, e, -b);
  }

  /** The general branch of AffineStep, for any q with q*a == b. */
  lemma AffineStepNonzero(a: real, b: real, s0: real, dt: real, e: real, q: real)
    requires a != 0.0 && q * a == b
    ensures AffineStep(a, b, s0, dt, e) == -q + (s0 + q) * e
  {
    assert q == b / a;
  }

  /** Visiting one more statement of a block appends its output to what
      came before. */
  lemma CnexpStmtsSnoc(block: seq<Stmt>, i: nat, dvars: seq<Name>, lt: LinearTestFn, next: nat,
                       stmts0: seq<Stmt>, errors0: seq<Diag>)
    requires i < |block|
    ensures var pre := CnexpStmts(block[..i], dvars, lt, next);
      var last := StmtUpdate(block[i], dvars, lt, pre.next);
      var out := CnexpStmts(block[..i + 1], dvars, lt, next);
      && stmts0 + out.stmts == stmts0 + pre.stmts + last.stmts
      && errors0 + out.diags == errors0 + pre.diags + last.diags
      && out.next == last.next
  {
    assert block[..i + 1][..i] == block[..i];
  }

  /** The visitor: CnexpSolverVisitor with its output statement list,
      state-variable list and diagnostics; `nextTemp` stands for the scope's
      supply of fresh local names. */
  class CnexpSolver {
    var dvars: seq<Name>
    var statements: seq<Stmt>
    var errors: seq<Diag>
    var nextTemp: nat
    const lt: LinearTestFn

    constructor (lt: LinearTestFn, firstTemp: nat)
      ensures dvars == [] && statements == [] && errors == [] && nextTemp == firstTemp && this.lt == lt
    {
      dvars, statements, errors, nextTemp := [], [], [], firstTemp;
      this.lt := lt;
    }

    /** Fresh local `prefix k` initialised to `init`. */
    method MakeLocal(prefix: string, init: Expr) returns (x: Name, setup: seq<Stmt>)
      modifies this
      ensures x == Temp(prefix, old(nextTemp)) && setup == LocalAssign(x, init)
      ensures nextTemp == old(nextTemp) + 1
      ensures dvars == old(dvars) && statements == old(statements) && errors == old(errors)
    {
      x := Temp(prefix, nextTemp);
      setup := LocalAssign(x, init);
      nextTemp := nextTemp + 1;
    }

    method VisitAssignment(lhs: LValue, rhs: Expr)
      modifies this
      ensures var out := StmtUpdate(Assign(lhs, rhs), old(dvars), lt, old(nextTemp));
        && statements == old(statements) + out.stmts
        && errors == old(errors) + out.diags
        && nextTemp == out.next
      ensures dvars == old(dvars)
    {
      if !lhs.Deriv? {
        statements := statements + [Assign(lhs, rhs)];
        return;
      }
      var s := lhs.name;
      var r := lt(rhs, dvars);
      if !Monolinear(r, s) {
        errors := errors + [NotDiagonal];
        return;
      }
      if s !in r.coef || IsZero(r.coef[s]) {
        var b, setupB := MakeLocal("b_", r.constant);
        statements := statements + setupB + [Assign(Var(s), Bin(Add, Ident(s), Bin(Mul, Ident(b), Ident(DT))))];
        return;
      } else if r.isHomogeneous {
        var a, setupA := MakeLocal("a_", r.coef[s]);
        statements := statements + setupA
          + [Assign(Var(s), Bin(Mul, Ident(s), ExpCall(Bin(Mul, Ident(a), Ident(DT)))))];
        return;
      } else {
        if rhs.Bin? && rhs.op == Div && s !in FreeVars(rhs.right) {
          var r2 := lt(rhs.left, [s]);
          if ExprValue(Coef(r2, s)) == Some(-1.0) {
            var a, setupA := MakeLocal("a_", rhs.right);
            var b, setupB := MakeLocal("b_", r2.constant);
            statements := statements + setupA + setupB
              + [Assign(Var(s), Bin(Add, Ident(b),
                   Bin(Mul, Bin(Sub, Ident(s), Ident(b)), ExpCall(Bin(Div, Neg(Ident(DT)), Ident(a))))))];
            return;
          }
        }
        // not gating
        var a, setupA := MakeLocal("a_", r.coef[s]);
        var ba, setupBA := MakeLocal("ba_", Bin(Div, r.constant, Ident(a)));
        statements := statements + setupA + setupBA
          + [Assign(Var(s), Bin(Add, Neg(Ident(ba)),
               Bin(Mul, Bin(Add, Ident(s), Ident(ba)), ExpCall(Bin(Mul, Ident(a), Ident(DT))))))];
      }
    }

    /** The block visit: fix the state-variable list, then visit every statement. */
    method VisitBlock(block: seq<Stmt>)
      modifies this
      ensures dvars == old(dvars) + DerivVars(block)
      ensures var out := CnexpStmts(block, dvars, lt, old(nextTemp));
        && statements == old(statements) + out.stmts
        && errors == old(errors) + out.diags
        && nextTemp == out.next
    {
      for i := 0 to |block|
        invariant dvars == old(dvars) + DerivVars(block[..i])
        invariant statements == old(statements) && errors == old(errors) && nextTemp == old(nextTemp)
      {
        assert block[..i + 1][..i] == block[..i];
        if IsDerivAssign(block[i]) {
          dvars := dvars + [block[i].lhs.name];
        }
      }
      assert block[..|block|] == block;
      VisitStatements(block);
    }

    /** One statement of the block: assignments go to VisitAssignment, the
        rest is copied. */
    method VisitStatement(st: Stmt)
      modifies this
      ensures var out := StmtUpdate(st, old(dvars), lt, old(nextTemp));
        && statements == old(statements) + out.stmts
        && errors == old(errors) + out.diags
        && nextTemp == out.next
      ensures dvars == old(dvars)
    {
      if st.Assign? {
        VisitAssignment(st.lhs, st.rhs);
      } else {
        statements := statements + [st];
      }
    }

    /** The rewriter's walk over the statements, each visited in order. */
    method VisitStatements(block: seq<Stmt>)
      modifies this
      ensures dvars == old(dvars)
      ensures var out := CnexpStmts(block, dvars, lt, old(nextTemp));
        && statements == old(statements) + out.stmts
        && errors == old(errors) + out.diags
        && nextTemp == out.next
    {
      for i := 0 to |block|
        invariant dvars == old(dvars)
        invariant var out := CnexpStmts(block[..i], dvars, lt, old(nextTemp));
          statements == old(statements) + out.stmts && errors == old(errors) + out.diags && nextTemp == out.next
      {
        CnexpStmtsSnoc(block, i, dvars, lt, old(nextTemp), old(statements), old(errors));
        VisitStatement(block[i]);
      }
      assert block[..|block|] == block;
    }
  }
}
