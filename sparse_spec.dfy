/** What the sparse (implicit Euler) solver does to its state, statement by
    statement: the specification the SparseSolver class is proved against. */
module SparseSpec {
  import opened Wrappers
  import opened Ast
  import opened Blocks
  import opened LinearTest
  import opened Symge
  import opened Semantics

  /** The prefix of the matrix entry temporaries. */
  const A_PREFIX: string := "a_"

  /** The visitor's fields: dvars_, scale_factor_, A_, symtbl_, statements_,
      the diagnostics, local_expr_, deq_index_, conserve_, conserve_rhs_,
      conserve_idx_, and the scope's temporary counter. */
  datatype SparseState = SparseState(
    dvars: seq<Name>,
    scale: seq<Option<Expr>>,
    rows: seq<Row>,
    symtbl: Table,
    stmts: seq<Stmt>,
    errors: seq<Diag>,
    localExpr: map<Name, Expr>,
    deq: nat,
    conserve: bool,
    conserveRhs: seq<Name>,
    conserveIdx: seq<nat>,
    next: nat)

  /** The shape every visit keeps: one scale factor per state variable, a
      matrix that is either not yet built or has one row per state variable,
      and conserved rows that exist. */
  predicate Ready(st: SparseState) {
    && |st.scale| == |st.dvars|
    && (|st.rows| == 0 || |st.rows| == |st.dvars|)
    && |st.conserveIdx| == |st.conserveRhs|
    && forall k :: 0 <= k < |st.conserveIdx| ==> st.conserveIdx[k] < |st.dvars|
  }

  /** std::find over the state variables. */
  function IndexOf(xs: seq<Name>, x: Name): (r: Option<nat>)
    ensures r.Some? ==> r.value < |xs| && xs[r.value] == x && forall k :: 0 <= k < r.value ==> xs[k] != x
    ensures r.None? <==> x !in xs
  {
    if xs == [] then None
    else if xs[0] == x then Some(0)
    else
      match IndexOf(xs[1..], x)
      case Some(k) => Some(k + 1)
      case None => None
  }

  /** std::vector::resize for the scale factors: new slots are unset. */
  function Resize(s: seq<Option<Expr>>, n: nat): (r: seq<Option<Expr>>)
    ensures |r| == n
    ensures forall i :: 0 <= i < n ==> r[i] == (if i < |s| then s[i] else None)
  {
    if |s| >= n then s[..n] else s + seq(n - |s|, _ => None)
  }

  /** involves_identifier(e, dvars). */
  predicate InvolvesAny(e: Expr, xs: seq<Name>) {
    exists x :: x in xs && x in FreeVars(e)
  }

  /** The first pass of the block visit and the resize of the scale factors. */
  function Prepared(st: SparseState, block: seq<Stmt>): SparseState {
    var dv := st.dvars + DerivVars(block);
    st.(dvars := dv, scale := Resize(st.scale, |dv|))
  }

  /** The matrix is built, n by n with empty rows, on first use. */
  function WithMatrix(st: SparseState): (r: SparseState)
    requires Ready(st)
    ensures Ready(r) && |r.rows| == |r.dvars|
  {
    if |st.rows| == 0 then st.(rows := seq(|st.dvars|, _ => [])) else st
  }

  /** The expression stored at column j of row `deq`: with c the coefficient
      of dvars[j] in the right-hand side and f the scale factor of column j,
      1 - c*dt/f on the diagonal (1 when there is no coefficient), -(c*dt/f)
      off it, and nothing when the coefficient is absent off the diagonal;
      "/f" is left out when no factor is set. */
  function EntryExpr(r: LinearResult, dvars: seq<Name>, scale: seq<Option<Expr>>, deq: nat, j: nat): Option<Expr>
    requires j < |dvars| && |scale| == |dvars|
  {
    var c := if dvars[j] in r.coef then Some(Bin(Mul, r.coef[dvars[j]], Ident(DT))) else None;
    var scaled := if c.Some? && scale[j].Some? then Some(Bin(Div, c.value, scale[j].value)) else c;
    if j == deq then Some(if scaled.Some? then Bin(Sub, Num(1.0), scaled.value) else Num(1.0))
    else if scaled.Some? then Some(Neg(scaled.value))
    else None
  }

  /** The entry of the implicit Euler matrix I - dt*C*F^-1 at (row, column),
      for coefficient c, step dt and column factor f. */
  function MatrixEntry(diagonal: bool, c: real, dt: real, f: real): real
    requires f != 0.0
  {
    (if diagonal then 1.0 else 0.0) - c * dt / f
  }

  /** The entry expression of every column of row `deq`. */
  function SparseColumn(r: LinearResult, dvars: seq<Name>, scale: seq<Option<Expr>>, deq: nat): (col: seq<Option<Expr>>)
    requires |scale| == |dvars|
    ensures |col| == |dvars|
  {
    seq(|dvars|, j requires 0 <= j < |dvars| && |scale| == |dvars| => EntryExpr(r, dvars, scale, deq, j))
  }

  /** The k-th first stoichiometric term naming `x`, if any (std::find_if). */
  function FindTerm(terms: seq<StoichTerm>, x: Name): (r: Option<nat>)
    ensures r.Some? ==> r.value < |terms| && terms[r.value].ident == Ident(x)
    ensures r.Some? ==> forall k :: 0 <= k < r.value ==> terms[k].ident != Ident(x)
    ensures r.None? ==> forall k :: 0 <= k < |terms| ==> terms[k].ident != Ident(x)
  {
    if terms == [] then None
    else if terms[0].ident == Ident(x) then Some(0)
    else
      match FindTerm(terms[1..], x)
      case Some(k) => Some(k + 1)
      case None => None
  }

  /** The conservation row's expression for every column: the coefficient
      of the first term naming the column's variable, multiplied by the
      column's scale factor when one is set. */
  function ConserveColumn(terms: seq<StoichTerm>, dvars: seq<Name>, scale: seq<Option<Expr>>): (col: seq<Option<Expr>>)
    requires |scale| == |dvars|
    ensures |col| == |dvars|
  {
    seq(|dvars|, j requires 0 <= j < |dvars| && |scale| == |dvars| =>
      match FindTerm(terms, dvars[j])
      case Some(k) => Some(if scale[j].Some? then Bin(Mul, scale[j].value, terms[k].coeff) else terms[k].coeff)
      case None => None)
  }

  /** One `a_` temporary per entry, declared and initialised in order. */
  function EmitTemps(es: seq<(nat, Expr)>, next: nat): seq<Stmt> {
    if es == [] then []
    else EmitTemps(es[..|es| - 1], next) + LocalAssign(Temp(A_PREFIX, next + |es| - 1), es[|es| - 1].1)
  }

  /** The symbols defined for `es`: the k-th names the k-th temporary. */
  function SymsOf(es: seq<(nat, Expr)>, next: nat): (r: Table)
    ensures |r| == |es|
  {
    seq(|es|, k requires 0 <= k < |es| => Primitive(Temp(A_PREFIX, next + k)))
  }

  /** Pushing the entries `es` onto row `row`: a temporary per entry, and
      a symbol defined for it stored at the entry's column. */
  function PushEntries(st: SparseState, row: nat, es: seq<(nat, Expr)>): SparseState
    requires row < |st.rows|
  {
    st.(stmts := st.stmts + EmitTemps(es, st.next),
        rows := st.rows[row := st.rows[row] + RowOf(es, |st.symtbl|)],
        symtbl := st.symtbl + SymsOf(es, st.next),
        next := st.next + |es|)
  }

  /** linear_test of a right-hand side, with the locals that involve state
      variables substituted, over the state variables. */
  function Decompose(st: SparseState, rhs: Expr, lt: LinearTestFn): LinearResult {
    lt(Substitute(rhs, st.localExpr), st.dvars)
  }

  /** The row a conservation law replaces: that of its first term's
      variable, when that is an identifier naming a state variable. */
  function ConservedRow(st: SparseState, terms: seq<StoichTerm>): Option<nat>
    requires terms != []
  {
    if terms[0].ident.Ident? then IndexOf(st.dvars, terms[0].ident.name) else None
  }

  /** visit(AssignmentExpression*). */
  function AssignStep(st: SparseState, lhs: LValue, rhs: Expr, lt: LinearTestFn): (r: SparseState)
    requires Ready(st) && (lhs.Deriv? ==> st.deq < |st.dvars|)
    ensures Ready(r) && r.dvars == st.dvars
    ensures r.deq <= st.deq + (if lhs.Deriv? then 1 else 0)
  {
    var st1 := WithMatrix(st);
    if !lhs.Deriv? then
      var expand := Substitute(rhs, st1.localExpr);
      st1.(stmts := st1.stmts + [Assign(lhs, rhs)],
           localExpr := if InvolvesAny(expand, st1.dvars) then st1.localExpr[lhs.name := expand] else st1.localExpr)
    else if st1.conserve && st1.rows[st1.deq] != [] then
      st1.(deq := st1.deq + 1)
    else
      var r := Decompose(st1, rhs, lt);
      if !r.isHomogeneous then st1.(errors := st1.errors + [NotHomogeneous])
      else if lhs.name != st1.dvars[st1.deq] then st1.(errors := st1.errors + [InconsistentOrder])
      else PushEntries(st1, st1.deq, Collect(SparseColumn(r, st1.dvars, st1.scale, st1.deq), |st1.dvars|)).(deq := st1.deq + 1)
  }

  /** The COMPARTMENT loop: set each listed variable's scale factor, stopping
      at the first one that is not a state variable. */
  function ApplyScale(scale: seq<Option<Expr>>, dvars: seq<Name>, vars: seq<Name>, e: Expr): (r: (seq<Option<Expr>>, bool))
    requires |scale| == |dvars|
    ensures |r.0| == |scale|
    decreases |vars|
  {
    if vars == [] then (scale, true)
    else
      match IndexOf(dvars, vars[0])
      case None => (scale, false)
      case Some(i) => ApplyScale(scale[i := Some(e)], dvars, vars[1..], e)
  }

  /** visit(CompartmentExpression*). */
  function CompartmentStep(st: SparseState, e: Expr, vars: seq<Name>): (r: SparseState)
    requires Ready(st)
    ensures Ready(r) && r.dvars == st.dvars && r.deq == st.deq
  {
    var (sc, ok) := ApplyScale(st.scale, st.dvars, vars, e);
    st.(scale := sc, errors := if ok then st.errors else st.errors + [CompartmentNotUsed])
  }

  /** visit(ConserveExpression*): the row of the first term's variable is
      replaced by the conservation law, whose right-hand side goes into a
      temporary recorded with the row. */
  function ConserveStep(st: SparseState, terms: seq<StoichTerm>, total: Expr): (r: SparseState)
    requires Ready(st) && terms != []
    ensures Ready(r) && r.dvars == st.dvars && r.deq == st.deq
  {
    var st1 := WithMatrix(st).(conserve := true);
    var first := terms[0].ident;
    if !first.Ident? then st1.(errors := st1.errors + [ConserveNotIdentifier])
    else
      match IndexOf(st1.dvars, first.name)
      case None => st1.(errors := st1.errors + [ConserveUnknown])
      case Some(row) =>
        var cleared := st1.(rows := st1.rows[row := []]);
        var st2 := PushEntries(cleared, row, Collect(ConserveColumn(terms, st1.dvars, st1.scale), |st1.dvars|));
        var t := Temp(A_PREFIX, st2.next);
        st2.(stmts := st2.stmts + LocalAssign(t, total),
             conserveRhs := st2.conserveRhs + [t],
             conserveIdx := st2.conserveIdx + [row],
             next := st2.next + 1)
  }

  /** Each statement of the block: assignments, COMPARTMENT and CONSERVE
      statements are visited, any other statement is copied. */
  function StmtStep(st: SparseState, s: Stmt, lt: LinearTestFn): (r: SparseState)
    requires Ready(st) && (IsDerivAssign(s) ==> st.deq < |st.dvars|) && (s.Conserve? ==> s.terms != [])
    ensures Ready(r) && r.dvars == st.dvars
    ensures r.deq <= st.deq + (if IsDerivAssign(s) then 1 else 0)
  {
    match s
    case Assign(lhs, rhs) => AssignStep(st, lhs, rhs, lt)
    case Compartment(e, vars) => CompartmentStep(st, e, vars)
    case Conserve(terms, total) => ConserveStep(st, terms, total)
    case _ => st.(stmts := st.stmts + [s])
  }

  predicate ConservesNonempty(block: seq<Stmt>) {
    forall i :: 0 <= i < |block| && block[i].Conserve? ==> block[i].terms != []
  }

  /** The statements of a block visited in order, from state `st`. */
  function SparseStmts(st: SparseState, block: seq<Stmt>, lt: LinearTestFn): (r: SparseState)
    requires Ready(st) && st.deq + |DerivVars(block)| <= |st.dvars| && ConservesNonempty(block)
    ensures Ready(r) && r.dvars == st.dvars && r.deq <= st.deq + |DerivVars(block)|
  {
    if block == [] then st
    else
      var init := block[..|block| - 1];
      assert forall i :: 0 <= i < |init| ==> init[i] == block[i];
      var pre := SparseStmts(st, init, lt);
      StmtStep(pre, block[|block| - 1], lt)
  }

  /** The augmented column before the conservation overrides: a fresh
      symbol per state variable, defined in order after `base` symbols. */
  function VarRhs(n: nat, base: nat): (r: seq<Symbol>)
    ensures |r| == n && forall i :: 0 <= i < n ==> r[i] == base + i
  {
    seq(n, i => base + i)
  }

  /** The augmented column after the first k conservation overrides: the
      k-th replaces the entry of its row by the symbol defined for its
      right-hand side temporary. */
  function ConservedRhs(n: nat, base: nat, idx: seq<nat>, k: nat): (r: seq<Symbol>)
    requires k <= |idx| && forall m :: 0 <= m < |idx| ==> idx[m] < n
    ensures |r| == n
  {
    if k == 0 then VarRhs(n, base)
    else ConservedRhs(n, base, idx, k - 1)[idx[k - 1] := base + n + k - 1]
  }

  /** The table the finalisation builds before the reduction. */
  function RhsTable(st: SparseState): Table {
    st.symtbl + seq(|st.dvars|, i requires 0 <= i < |st.dvars| => Primitive(st.dvars[i]))
    + (if st.conserve then seq(|st.conserveRhs|, k requires 0 <= k < |st.conserveRhs| => Primitive(st.conserveRhs[k])) else [])
  }

  function RhsSymbols(st: SparseState): (r: seq<Symbol>)
    requires Ready(st)
    ensures |r| == |st.dvars|
  {
    ConservedRhs(|st.dvars|, |st.symtbl|, st.conserveIdx, if st.conserve then |st.conserveIdx| else 0)
  }

  /** The conservation override for row i that is in force after k of them:
      the last one among the first k for that row. */
  function LastOverride(idx: seq<nat>, i: nat, k: nat): (r: Option<nat>)
    requires k <= |idx|
    ensures r.Some? ==> r.value < k && idx[r.value] == i && forall m :: r.value < m < k ==> idx[m] != i
    ensures r.None? ==> forall m :: 0 <= m < k ==> idx[m] != i
  {
    if k == 0 then None
    else if idx[k - 1] == i then Some(k - 1)
    else LastOverride(idx, i, k - 1)
  }
}
