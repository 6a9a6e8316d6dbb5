/** What straight-line statement lists compute: used to state what the
    updates emitted by the solvers mean. Calls (exp_pade_11 and the like) are
    left uninterpreted through the `call` parameter; division by zero has no
    value. */
module Semantics {
  import opened Wrappers
  import opened Ast

  type Env = map<Name, real>
  type CallFn = (string, seq<real>) -> real

  function Apply(op: BinOp, x: real, y: real): Option<real> {
    match op
    case Add => Some(x + y)
    case Sub => Some(x - y)
    case Mul => Some(x * y)
    case Div => if y == 0.0 then None else Some(x / y)
  }

  function Eval(e: Expr, env: Env, call: CallFn): Option<real> {
    match e
    case Ident(x) => if x in env then Some(env[x]) else None
    case Num(v) => Some(v)
    case IntLit(n) => Some(n as real)
    case Neg(a) =>
      (match Eval(a, env, call)
       case Some(v) => Some(-v)
       case None => None)
    case Bin(op, l, r) =>
      (match (Eval(l, env, call), Eval(r, env, call))
       case (Some(x), Some(y)) => Apply(op, x, y)
       case _ => None)
    case Call(f, args) =>
      (match EvalArgs(args, env, call)
       case Some(vs) => Some(call(f, vs))
       case None => None)
  }

  function EvalArgs(args: seq<Expr>, env: Env, call: CallFn): Option<seq<real>> {
    if args == [] then Some([])
    else
      match (Eval(args[0], env, call), EvalArgs(args[1..], env, call))
      case (Some(v), Some(vs)) => Some([v] + vs)
      case _ => None
  }

  /** Runs declarations and assignments to variables in order; any other
      statement has no straight-line meaning here. */
  function Exec(stmts: seq<Stmt>, env: Env, call: CallFn): Option<Env> {
    if stmts == [] then Some(env)
    else
      match stmts[0]
      case LocalDecl(_) => Exec(stmts[1..], env, call)
      case Assign(Var(x), e) =>
        (match Eval(e, env, call)
         case Some(v) => Exec(stmts[1..], env[x := v], call)
         case None => None)
      case _ => None
  }

  /** One step of evaluation for each operator, from the operands' values. */
  lemma {:induction false} EvalNeg(a: Expr, env: Env, call: CallFn, x: real, v: real)
    requires Eval(a, env, call) == Some(x) && v == -x
    ensures Eval(Neg(a), env, call) == Some(v)
  {
    var res := Eval(Neg(a), env, call);
    assert res.Some? && res.value == -x;
  }

  lemma {:induction false} EvalAdd(l: Expr, r: Expr, env: Env, call: CallFn, x: real, y: real, v: real)
    requires Eval(l, env, call) == Some(x) && Eval(r, env, call) == Some(y) && v == x + y
    ensures Eval(Bin(Add, l, r), env, call) == Some(v)
  {
    var res := Eval(Bin(Add, l, r), env, call);
    assert res == Apply(Add, x, y);
    assert res.Some? && res.value == x + y;
  }

  lemma {:induction false} EvalSub(l: Expr, r: Expr, env: Env, call: CallFn, x: real, y: real, v: real)
    requires Eval(l, env, call) == Some(x) && Eval(r, env, call) == Some(y) && v == x - y
    ensures Eval(Bin(Sub, l, r), env, call) == Some(v)
  {
    var res := Eval(Bin(Sub, l, r), env, call);
    assert res == Apply(Sub, x, y);
    assert res.Some? && res.value == x - y;
  }

  lemma {:induction false} EvalMul(l: Expr, r: Expr, env: Env, call: CallFn, x: real, y: real, v: real)
    requires Eval(l, env, call) == Some(x) && Eval(r, env, call) == Some(y) && v == x * y
    ensures Eval(Bin(Mul, l, r), env, call) == Some(v)
  {
    var res := Eval(Bin(Mul, l, r), env, call);
    assert res == Apply(Mul, x, y);
    assert res.Some? && res.value == x * y;
  }

  lemma {:induction false} EvalDiv(l: Expr, r: Expr, env: Env, call: CallFn, x: real, y: real, v: real)
    requires Eval(l, env, call) == Some(x) && Eval(r, env, call) == Some(y) && y != 0.0 && v == x / y
    ensures Eval(Bin(Div, l, r), env, call) == Some(v)
  {
    var res := Eval(Bin(Div, l, r), env, call);
    assert res == Apply(Div, x, y);
    assert res.Some? && res.value == x / y;
  }

  /** Assigning a variable an expression does not mention leaves its value alone. */
  lemma {:induction false} EvalUpdate(e: Expr, env: Env, call: CallFn, x: Name, v: real)
    requires x !in FreeVars(e)
    ensures Eval(e, env[x := v], call) == Eval(e, env, call)
  {
    match e
    case Ident(_) =>
    case Num(_) =>
    case IntLit(_) =>
    case Neg(a) => EvalUpdate(a, env, call, x, v);
    case Bin(_, l, r) => EvalUpdate(l, env, call, x, v); EvalUpdate(r, env, call, x, v);
    case Call(_, args) => EvalArgsUpdate(args, env, call, x, v);
  }

  lemma {:induction false} EvalArgsUpdate(args: seq<Expr>, env: Env, call: CallFn, x: Name, v: real)
    requires x !in ArgsFreeVars(args)
    ensures EvalArgs(args, env[x := v], call) == EvalArgs(args, env, call)
  {
    if args != [] {
      EvalUpdate(args[0], env, call, x, v);
      EvalArgsUpdate(args[1..], env, call, x, v);
    }
  }

  lemma {:induction false} ExecAppend(s1: seq<Stmt>, s2: seq<Stmt>, env: Env, call: CallFn)
    requires Exec(s1, env, call).Some?
    ensures Exec(s1 + s2, env, call) == Exec(s2, Exec(s1, env, call).value, call)
  {
    if s1 != [] {
      assert (s1 + s2)[1..] == s1[1..] + s2;
      match s1[0]
      case LocalDecl(_) => ExecAppend(s1[1..], s2, env, call);
      case Assign(Var(x), e) => ExecAppend(s1[1..], s2, env[x := Eval(e, env, call).value], call);
    } else {
      assert s1 + s2 == s2;
    }
  }

  /** A declaration followed by an initialising assignment binds the local. */
  lemma {:induction false} ExecLocalAssign(x: Name, e: Expr, rest: seq<Stmt>, env: Env, call: CallFn, v: real)
    requires Eval(e, env, call) == Some(v)
    ensures Exec(LocalAssign(x, e) + rest, env, call) == Exec(rest, env[x := v], call)
  {
    var all := LocalAssign(x, e) + rest;
    assert all[1..][1..] == rest;
  }

  lemma {:induction false} ExecAssign(x: Name, e: Expr, env: Env, call: CallFn, v: real)
    requires Eval(e, env, call) == Some(v)
    ensures Exec([Assign(Var(x), e)], env, call) == Some(env[x := v])
  {
    assert [Assign(Var(x), e)][1..] == [];
  }

  lemma {:induction false} EvalCall1(f: string, x: Expr, env: Env, call: CallFn, v: real)
    requires Eval(x, env, call) == Some(v)
    ensures Eval(Call(f, [x]), env, call) == Some(call(f, [v]))
  {
    assert [x][1..] == [];
    assert [x][0] == x;
    assert [v] + [] == [v];
    assert EvalArgs([x], env, call) == Some([v]);
  }

  /** Two environments that agree on the names an expression mentions give
      it the same value. */
  lemma {:induction false} EvalAgree(e: Expr, env1: Env, env2: Env, call: CallFn)
    requires forall x :: x in FreeVars(e) ==> (x in env1 <==> x in env2) && (x in env1 ==> env1[x] == env2[x])
    ensures Eval(e, env1, call) == Eval(e, env2, call)
  {
    match e
    case Ident(_) =>
    case Num(_) =>
    case IntLit(_) =>
    case Neg(a) => EvalAgree(a, env1, env2, call);
    case Bin(_, l, r) => EvalAgree(l, env1, env2, call); EvalAgree(r, env1, env2, call);
    case Call(_, args) => EvalArgsAgree(args, env1, env2, call);
  }

  lemma {:induction false} EvalArgsAgree(args: seq<Expr>, env1: Env, env2: Env, call: CallFn)
    requires forall x :: x in ArgsFreeVars(args) ==> (x in env1 <==> x in env2) && (x in env1 ==> env1[x] == env2[x])
    ensures EvalArgs(args, env1, call) == EvalArgs(args, env2, call)
  {
    if args != [] {
      EvalAgree(args[0], env1, env2, call);
      EvalArgsAgree(args[1..], env1, env2, call);
    }
  }

  /** Under `env`, the substitution `m` stands for `env2` on the names `xs`:
      a key's image evaluates to the key's value in `env2`, and every other
      name is bound alike in both. */
  ghost predicate SubstitutionAgrees(xs: set<Name>, m: map<Name, Expr>, env: Env, env2: Env, call: CallFn) {
    forall x :: x in xs ==>
      if x in m then Eval(m[x], env, call) == Eval(Ident(x), env2, call)
      else (x in env <==> x in env2) && (x in env ==> env[x] == env2[x])
  }

  /** substitute replaces each key by its image: evaluating the substituted
      expression is evaluating the original with every key bound to its
      image's value. */
  lemma {:induction false} SubstituteMeaning(e: Expr, m: map<Name, Expr>, env: Env, env2: Env, call: CallFn)
    requires SubstitutionAgrees(FreeVars(e), m, env, env2, call)
    ensures Eval(Substitute(e, m), env, call) == Eval(e, env2, call)
  {
    match e
    case Ident(x) =>
      assert x in FreeVars(e);
    case Num(_) =>
    case IntLit(_) =>
    case Neg(a) => SubstituteMeaning(a, m, env, env2, call);
    case Bin(_, l, r) => SubstituteMeaning(l, m, env, env2, call); SubstituteMeaning(r, m, env, env2, call);
    case Call(_, args) => SubstituteArgsMeaning(args, m, env, env2, call);
  }

  lemma {:induction false} SubstituteArgsMeaning(args: seq<Expr>, m: map<Name, Expr>, env: Env, env2: Env, call: CallFn)
    requires SubstitutionAgrees(ArgsFreeVars(args), m, env, env2, call)
    ensures EvalArgs(SubstituteArgs(args, m), env, call) == EvalArgs(args, env2, call)
  {
    if args != [] {
      var r := SubstituteArgs(args, m);
      assert r[0] == Substitute(args[0], m) && r[1..] == SubstituteArgs(args[1..], m);
      SubstituteMeaning(args[0], m, env, env2, call);
      SubstituteArgsMeaning(args[1..], m, env, env2, call);
    }
  }
}
