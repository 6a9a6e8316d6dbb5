/** The result of modcc's linear_test, which decomposes an expression as
    `sum of c_v * v + constant` over a list of variables. The decomposition
    itself is not part of this model: the solvers receive it as a function
    parameter of type `LinearTestFn`, and `Decomposes` states what they rely
    on it to mean. */
module LinearTest {
  import opened Wrappers
  import opened Ast
  import opened Semantics

  datatype LinearResult = LinearResult(
    isLinear: bool,
    isHomogeneous: bool,   // the constant term is zero
    constant: Expr,
    coef: map<Name, Expr>) // a variable with no coefficient is absent

  type LinearTestFn = (Expr, seq<Name>) -> LinearResult

  /** monolinear(s): linear, and no variable other than `s` has a
      coefficient that is not the literal zero. */
  predicate Monolinear(r: LinearResult, s: Name) {
    r.isLinear && forall v :: v in r.coef && v != s ==> IsZero(r.coef[v])
  }

  /** The coefficient of `v`, if the decomposition has one. */
  function Coef(r: LinearResult, v: Name): Wrappers.Option<Expr> {
    if v in r.coef then Wrappers.Some(r.coef[v]) else Wrappers.None
  }

  /** The value of `sum of c_v * v + constant` in `env`, each distinct name
      of `vars` counted once (the coefficients are keyed by name), or none
      when the constant, a coefficient or a variable has no value. */
  function Combination(r: LinearResult, vars: seq<Name>, env: Env, call: CallFn): Option<real>
    decreases |vars|
  {
    if vars == [] then Eval(r.constant, env, call)
    else
      var init := vars[..|vars| - 1];
      var v := vars[|vars| - 1];
      var rest := Combination(r, init, env, call);
      if v in init || v !in r.coef then rest
      else
        var c := Eval(r.coef[v], env, call);
        if rest.Some? && c.Some? && v in env then Some(rest.value + c.value * env[v]) else None
  }

  /** A decomposition reported homogeneous has a constant term that is
      zero wherever it has a value. */
  predicate ConstantVanishes(r: LinearResult, env: Env, call: CallFn) {
    r.isHomogeneous && Eval(r.constant, env, call).Some? ==> Eval(r.constant, env, call).value == 0.0
  }

  /** What the solvers take linear_test's answer `r` for `e` over `vars` to
      mean: a homogeneous answer has a zero constant, and when `r` reports
      `e` linear, `e` evaluates to the combination the coefficients and the
      constant describe, wherever that has a value. */
  predicate Decomposes(r: LinearResult, e: Expr, vars: seq<Name>, env: Env, call: CallFn) {
    && ConstantVanishes(r, env, call)
    && (r.isLinear && Combination(r, vars, env, call).Some? ==> Eval(e, env, call) == Combination(r, vars, env, call))
  }

  /** One more variable: a repeated name, or one without a coefficient,
      adds nothing. */
  lemma CombinationSkip(r: LinearResult, init: seq<Name>, v: Name, env: Env, call: CallFn)
    requires v in init || v !in r.coef
    ensures Combination(r, init + [v], env, call) == Combination(r, init, env, call)
  {
    var vs := init + [v];
    assert vs[..|vs| - 1] == init && vs[|vs| - 1] == v;
  }

  /** One more variable with a coefficient adds its term. */
  lemma CombinationAdd(r: LinearResult, init: seq<Name>, v: Name, env: Env, call: CallFn, x: real, c: real, w: real)
    requires v !in init && v in r.coef && v in env
    requires Combination(r, init, env, call) == Some(x) && Eval(r.coef[v], env, call) == Some(c)
    requires w == x + c * env[v]
    ensures Combination(r, init + [v], env, call) == Some(w)
  {
    var vs := init + [v];
    assert vs[..|vs| - 1] == init && vs[|vs| - 1] == v;
    assert Combination(r, vs, env, call).Some?;
    assert Combination(r, vs, env, call).value
        == Combination(r, init, env, call).value + Eval(r.coef[v], env, call).value * env[v];
    assert Combination(r, init, env, call).value == x && Eval(r.coef[v], env, call).value == c;
    assert Combination(r, vs, env, call).value == w;
  }
}
