/** The fragment of the mechanism-description language's syntax tree that the
    solvers read and write (modcc's Expression hierarchy), as closed datatypes. */
module Ast {
  import opened Wrappers

  /** An identifier. `User` names come from the mechanism source (state
      variables, parameters, `dt`); `Temp` names are the temporaries the
      solvers introduce through make_unique_local_assign, identified by the
      requested prefix ("a_", "b_", "ba_", "t_") and a counter that the scope
      never hands out twice. */
  datatype Name = User(spelling: string) | Temp(prefix: string, k: nat)

  const DT: Name := User("dt")
  const EXP_PADE_11: string := "exp_pade_11"

  datatype BinOp = Add | Sub | Mul | Div

  datatype Expr =
    | Ident(name: Name)                 // IdentifierExpression
    | Num(value: real)                  // NumberExpression
    | IntLit(ivalue: int)               // IntegerExpression
    | Neg(arg: Expr)                    // NegUnaryExpression
    | Bin(op: BinOp, left: Expr, right: Expr)
    | Call(fn: string, args: seq<Expr>) // CallExpression

  /** Left-hand side of an assignment: a variable, or the derivative `s'`. */
  datatype LValue = Var(name: Name) | Deriv(name: Name) {
    function Id(): Name {
      match this
      case Var(x) => x
      case Deriv(x) => x
    }
  }

  datatype StoichTerm = StoichTerm(coeff: Expr, ident: Expr)

  datatype Stmt =
    | Assign(lhs: LValue, rhs: Expr)
    | LocalDecl(vars: set<Name>)               // LOCAL a, b, ... (a map keyed by name in the source)
    | CallStmt(fn: string, args: seq<Expr>)    // a procedure call used as a statement
    | If(cond: Expr, thenBranch: seq<Stmt>, elseBranch: seq<Stmt>)
    | Compartment(scale: Expr, stateVars: seq<Name>)
    | Conserve(terms: seq<StoichTerm>, total: Expr)
    | Linear(equation: Expr, rhsName: Name)      // a linear equation `lhs = rhs`, rhs already a name

  predicate IsDerivAssign(st: Stmt) {
    st.Assign? && st.lhs.Deriv?
  }

  /** The identifiers an expression mentions (involves_identifier). */
  function FreeVars(e: Expr): set<Name> {
    match e
    case Ident(x) => {x}
    case Num(_) => {}
    case IntLit(_) => {}
    case Neg(a) => FreeVars(a)
    case Bin(_, l, r) => FreeVars(l) + FreeVars(r)
    case Call(_, args) => ArgsFreeVars(args)
  }

  function ArgsFreeVars(args: seq<Expr>): set<Name> {
    if args == [] then {} else FreeVars(args[0]) + ArgsFreeVars(args[1..])
  }

  /** Every temporary an expression mentions was handed out before counter `next`. */
  predicate TempsBelow(e: Expr, next: nat) {
    forall x :: x in FreeVars(e) && x.Temp? ==> x.k < next
  }

  /** is_zero: a numeric literal whose value is zero. */
  predicate IsZero(e: Expr) {
    (e.Num? && e.value == 0.0) || (e.IntLit? && e.ivalue == 0)
  }

  /** expr_value: the value of a numeric literal; `None` stands for the NaN
      returned for anything else, including a missing expression. */
  function ExprValue(e: Option<Expr>): (v: Option<real>)
    ensures v.Some? <==> e.Some? && (e.value.Num? || e.value.IntLit?)
    ensures v.Some? ==> v.value == (if e.value.Num? then e.value.value else e.value.ivalue as real)
  {
    match e
    case Some(Num(x)) => Some(x)
    case Some(IntLit(n)) => Some(n as real)
    case _ => None
  }

  function MapFreeVars(m: map<Name, Expr>): set<Name> {
    set y, x | y in m && x in FreeVars(m[y]) :: x
  }

  /** substitute: replace every identifier that is a key of `m` by its image. */
  function Substitute(e: Expr, m: map<Name, Expr>): (r: Expr)
    ensures FreeVars(e) !! m.Keys ==> r == e
    ensures FreeVars(r) <= (FreeVars(e) - m.Keys) + MapFreeVars(m)
  {
    match e
    case Ident(x) => if x in m then m[x] else e
    case Num(_) => e
    case IntLit(_) => e
    case Neg(a) => Neg(Substitute(a, m))
    case Bin(op, l, r) => Bin(op, Substitute(l, m), Substitute(r, m))
    case Call(f, args) => Call(f, SubstituteArgs(args, m))
  }

  function SubstituteArgs(args: seq<Expr>, m: map<Name, Expr>): (r: seq<Expr>)
    ensures |r| == |args|
    ensures ArgsFreeVars(args) !! m.Keys ==> r == args
    ensures ArgsFreeVars(r) <= (ArgsFreeVars(args) - m.Keys) + MapFreeVars(m)
  {
    if args == [] then [] else [Substitute(args[0], m)] + SubstituteArgs(args[1..], m)
  }

  /** make_unique_local_assign: the declaration and the initialising
      assignment of a fresh local `x`, in the order the solvers emit them. */
  function LocalAssign(x: Name, init: Expr): (r: seq<Stmt>)
    ensures |r| == 2 && r[0] == LocalDecl({x}) && r[1].Assign? && r[1].lhs == Var(x)
    ensures r[1].rhs == init
  {
    [LocalDecl({x}), Assign(Var(x), init)]
  }

  /** The diagnostics the solvers record, one per error message they emit. */
  datatype Diag =
    | NotDiagonal
    | NotHomogeneous
    | InconsistentOrder
    | CompartmentNotUsed
    | ConserveUnknown
    | ConserveNotIdentifier
}

/** Helpers over statement blocks shared by the solvers. */
module Blocks {
  import opened Ast

  /** The first pass of the solvers' block visit: the variables of the
      derivative assignments, in source order. */
  function DerivVars(block: seq<Stmt>): (r: seq<Name>)
    ensures |r| <= |block|
    ensures forall x :: x in r <==>
      exists i :: 0 <= i < |block| && IsDerivAssign(block[i]) && block[i].lhs.name == x
  {
    if block == [] then []
    else
      var last := block[|block| - 1];
      assert forall i :: 0 <= i < |block| - 1 ==> block[..|block| - 1][i] == block[i];
      DerivVars(block[..|block| - 1]) + (if IsDerivAssign(last) then [last.lhs.name] else [])
  }

  /** The order and multiplicity of DerivVars: the derivative assignment at
      `block[i]` contributes the entry at position |DerivVars(block[..i])|,
      the number of derivative assignments before it (DerivVarsAt), and
      every position is contributed by one of them (DerivVarsFrom). The
      solvers use that position as the row and column of the state
      variable. */
  lemma {:induction false} DerivVarsAt(block: seq<Stmt>, i: int)
    requires 0 <= i < |block| && IsDerivAssign(block[i])
    ensures |DerivVars(block[..i])| < |DerivVars(block)| && DerivVars(block)[|DerivVars(block[..i])|] == block[i].lhs.name
    decreases |block|
  {
    var n := |block| - 1;
    var init := block[..n];
    assert DerivVars(block) == DerivVars(init) + (if IsDerivAssign(block[n]) then [block[n].lhs.name] else []);
    if i < n {
      DerivVarsAt(init, i);
      assert block[..i] == init[..i] && init[i] == block[i];
    } else {
      assert block[..i] == init;
    }
  }

  lemma {:induction false} DerivVarsFrom(block: seq<Stmt>, k: int)
    requires 0 <= k < |DerivVars(block)|
    ensures exists i :: 0 <= i < |block| && IsDerivAssign(block[i]) && |DerivVars(block[..i])| == k
                        && block[i].lhs.name == DerivVars(block)[k]
    decreases |block|
  {
    var n := |block| - 1;
    var init := block[..n];
    assert DerivVars(block) == DerivVars(init) + (if IsDerivAssign(block[n]) then [block[n].lhs.name] else []);
    if k < |DerivVars(init)| {
      DerivVarsFrom(init, k);
      var i :| 0 <= i < |init| && IsDerivAssign(init[i]) && |DerivVars(init[..i])| == k
               && init[i].lhs.name == DerivVars(init)[k];
      assert block[..i] == init[..i] && init[i] == block[i];
      assert DerivVars(block)[k] == DerivVars(init)[k];
    } else {
      assert block[..n] == init;
      assert IsDerivAssign(block[n]) && |DerivVars(block[..n])| == k;
    }
  }
}
