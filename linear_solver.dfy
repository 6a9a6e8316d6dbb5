/** LinearSolverVisitor: solves a LINEAR block, a system of algebraic
    equations `lhs = rhs` that are homogeneous linear in the unknowns and
    whose right-hand sides are names, by assembling the coefficient matrix
    over a symbol table, reducing it, and emitting one division per unknown. */
module LinearSystem {
  import opened Wrappers
  import opened Ast
  import opened LinearTest
  import opened Symge

  /** The visitor's fields: the unknowns, the matrix rows, the symbol table,
      the right-hand-side symbols, the statements written so far, the
      diagnostics, the index of the next equation and the temporary counter. */
  datatype LinearState = LinearState(
    dvars: seq<Name>,
    rows: seq<Row>,
    symtbl: Table,
    rhs: seq<Symbol>,
    stmts: seq<Stmt>,
    errors: seq<Diag>,
    deq: nat,
    next: nat)

  /** The shape the visitor keeps: the matrix is either not yet allocated or
      has a row per unknown, the rows of the equations still to come are
      empty, and there is one right-hand side per equation taken. */
  predicate Ready(st: LinearState) {
    && (st.rows == [] ==> st.deq == 0)
    && (st.rows == [] || |st.rows| == |st.dvars|)
    && |st.rhs| == st.deq && st.deq <= |st.dvars|
    && forall k :: st.deq <= k < |st.rows| ==> st.rows[k] == []
  }

  /** Every coefficient linear_test reports for an unknown is an identifier,
      whose spelling the visitor defines as a symbol. */
  predicate CoefsNamed(r: LinearResult, dvars: seq<Name>) {
    forall j :: 0 <= j < |dvars| && dvars[j] in r.coef ==> r.coef[dvars[j]].Ident?
  }

  /** The column vector of an equation: the coefficient's name for each
      unknown that has one. */
  function CoefNames(r: LinearResult, dvars: seq<Name>): (c: seq<Option<Name>>)
    requires CoefsNamed(r, dvars)
    ensures |c| == |dvars|
    ensures forall j :: 0 <= j < |dvars| ==> (c[j].Some? <==> dvars[j] in r.coef)
    ensures forall j :: 0 <= j < |dvars| && c[j].Some? ==> c[j].value == r.coef[dvars[j]].name
  {
    seq(|dvars|, j requires 0 <= j < |dvars| && CoefsNamed(r, dvars) =>
      if dvars[j] in r.coef then Some(r.coef[dvars[j]].name) else None)
  }

  /** The matrix is allocated, n rows of n columns, on the first equation. */
  function WithMatrix(st: LinearState): (r: LinearState)
    requires Ready(st)
    ensures Ready(r) && |r.rows| == |r.dvars|
    ensures r == st.(rows := r.rows)
    ensures forall k :: 0 <= k < |r.rows| ==> r.rows[k] == (if st.rows == [] then [] else st.rows[k])
  {
    if st.rows == [] then st.(rows := seq(|st.dvars|, _ => [])) else st
  }

  /** The symbols defined for the entries `es`: each names its coefficient. */
  function NamesOf(es: seq<(nat, Name)>): (r: Table)
    ensures |r| == |es|
  {
    seq(|es|, k requires 0 <= k < |es| => Primitive(es[k].1))
  }

  /** Pushing the entries `es` onto row `row`, each with a new symbol. */
  function PushCoefs(st: LinearState, row: nat, es: seq<(nat, Name)>): LinearState
    requires row < |st.rows|
  {
    st.(rows := st.rows[row := st.rows[row] + RowOf(es, |st.symtbl|)],
        symtbl := st.symtbl + NamesOf(es))
  }

  /** Only a homogeneous equation needs a free row and named coefficients:
      the visitor tests homogeneity before it touches the matrix row. */
  predicate RowReady(st: LinearState, eq: Expr, lt: LinearTestFn) {
    lt(eq, st.dvars).isHomogeneous ==> st.deq < |st.dvars| && CoefsNamed(lt(eq, st.dvars), st.dvars)
  }

  /** visit(LinearExpression*): a homogeneous equation fills its row with
      the coefficients' symbols and records its right-hand side's symbol;
      any other one is an error and is skipped. */
  function EquationStep(st: LinearState, eq: Expr, x: Name, lt: LinearTestFn): (r: LinearState)
    requires Ready(st) && RowReady(st, eq, lt)
    ensures Ready(r) && r.dvars == st.dvars
    ensures r.deq <= st.deq + 1
  {
    var st1 := WithMatrix(st);
    var r := lt(eq, st1.dvars);
    if !r.isHomogeneous then st1.(errors := st1.errors + [NotHomogeneous])
    else
      var names := CoefNames(r, st1.dvars);
      var pushed := PushCoefs(st1, st1.deq, Collect(names, |names|));
      pushed.(symtbl := pushed.symtbl + [Primitive(x)],
              rhs := pushed.rhs + [|pushed.symtbl|],
              deq := pushed.deq + 1)
  }

  /** The LINEAR statements of a block. */
  function LinearCount(block: seq<Stmt>): nat {
    if block == [] then 0
    else LinearCount(block[..|block| - 1]) + (if block[|block| - 1].Linear? then 1 else 0)
  }

  /** A LINEAR statement that linear_test finds homogeneous, which takes a
      row of the matrix. */
  predicate TakesRow(s: Stmt, dvars: seq<Name>, lt: LinearTestFn) {
    s.Linear? && lt(s.equation, dvars).isHomogeneous
  }

  /** The statements of a block that take a row. */
  function RowCount(block: seq<Stmt>, dvars: seq<Name>, lt: LinearTestFn): (n: nat)
    ensures n <= LinearCount(block)
  {
    if block == [] then 0
    else RowCount(block[..|block| - 1], dvars, lt) + (if TakesRow(block[|block| - 1], dvars, lt) then 1 else 0)
  }

  /** The statements the visitor copies: all but the LINEAR ones. */
  function Others(block: seq<Stmt>): seq<Stmt> {
    if block == [] then []
    else Others(block[..|block| - 1]) + (if block[|block| - 1].Linear? then [] else [block[|block| - 1]])
  }

  predicate EquationsNamed(block: seq<Stmt>, dvars: seq<Name>, lt: LinearTestFn) {
    forall i :: 0 <= i < |block| && TakesRow(block[i], dvars, lt) ==> CoefsNamed(lt(block[i].equation, dvars), dvars)
  }

  /** Each statement of the block: LINEAR statements are solved, any other
      is copied. */
  function StmtStep(st: LinearState, s: Stmt, lt: LinearTestFn): (r: LinearState)
    requires Ready(st) && (s.Linear? ==> RowReady(st, s.equation, lt))
    ensures Ready(r) && r.dvars == st.dvars
    ensures r.deq <= st.deq + (if s.Linear? then 1 else 0)
  {
    match s
    case Linear(eq, x) => EquationStep(st, eq, x, lt)
    case _ => st.(stmts := st.stmts + [s])
  }

  /** The statements of a block visited in order, from state `st`. */
  function LinearStmts(st: LinearState, block: seq<Stmt>, lt: LinearTestFn): (r: LinearState)
    requires Ready(st) && st.deq + RowCount(block, st.dvars, lt) <= |st.dvars| && EquationsNamed(block, st.dvars, lt)
    ensures Ready(r) && r.dvars == st.dvars && r.deq == st.deq + RowCount(block, st.dvars, lt)
  {
    if block == [] then st
    else
      var init := block[..|block| - 1];
      assert forall i :: 0 <= i < |init| ==> init[i] == block[i];
      StmtStep(LinearStmts(st, init, lt), block[|block| - 1], lt)
  }

  /** A homogeneous equation's row is the pushed column, then the symbol
      for `x` is defined. */
  lemma {:induction false} EquationShape(st: LinearState, eq: Expr, x: Name, lt: LinearTestFn)
    requires Ready(st) && st.deq < |st.dvars| && CoefsNamed(lt(eq, st.dvars), st.dvars)
    requires lt(eq, st.dvars).isHomogeneous
    ensures EquationStep(st, eq, x, lt).rows
         == PushCoefs(WithMatrix(st), st.deq, Collect(CoefNames(lt(eq, st.dvars), st.dvars), |st.dvars|)).rows
    ensures EquationStep(st, eq, x, lt).symtbl
         == PushCoefs(WithMatrix(st), st.deq, Collect(CoefNames(lt(eq, st.dvars), st.dvars), |st.dvars|)).symtbl + [Primitive(x)]
  {
  }

  /** Pushing a whole column onto an empty row: an entry at column c exactly
      when the column has a name there, and its symbol is defined for that
      name. */
  lemma {:induction false} PushedCoefs(st: LinearState, row: nat, names: seq<Option<Name>>, c: nat)
    requires row < |st.rows| && st.rows[row] == [] && c < |names|
    ensures RowAt(PushCoefs(st, row, Collect(names, |names|)).rows[row], c).Some? <==> names[c].Some?
    ensures names[c].Some? ==>
      && RowAt(PushCoefs(st, row, Collect(names, |names|)).rows[row], c).value < |PushCoefs(st, row, Collect(names, |names|)).symtbl|
      && PushCoefs(st, row, Collect(names, |names|)).symtbl[RowAt(PushCoefs(st, row, Collect(names, |names|)).rows[row], c).value]
         == Primitive(names[c].value)
  {
    var es := Collect(names, |names|);
    var out := PushCoefs(st, row, es);
    assert out.rows[row] == RowOf(es, |st.symtbl|);
    RowOfLookup(names, |st.symtbl|, c);
    if names[c].Some? {
      CollectRank(names, c, |names|);
      var rank := |Collect(names, c)|;
      assert out.symtbl[|st.symtbl| + rank] == NamesOf(es)[rank];
    }
  }

  /** A homogeneous equation's row has an entry at column c exactly when
      linear_test gives unknown c a coefficient, and that entry's symbol
      names the coefficient. */
  lemma {:induction false} EquationEntries(st: LinearState, eq: Expr, x: Name, lt: LinearTestFn, c: nat)
    requires Ready(st) && st.deq < |st.dvars| && CoefsNamed(lt(eq, st.dvars), st.dvars)
    requires lt(eq, st.dvars).isHomogeneous && c < |st.dvars|
    ensures RowAt(EquationStep(st, eq, x, lt).rows[st.deq], c).Some? <==> st.dvars[c] in lt(eq, st.dvars).coef
    ensures st.dvars[c] in lt(eq, st.dvars).coef ==>
      && RowAt(EquationStep(st, eq, x, lt).rows[st.deq], c).value < |EquationStep(st, eq, x, lt).symtbl|
      && EquationStep(st, eq, x, lt).symtbl[RowAt(EquationStep(st, eq, x, lt).rows[st.deq], c).value]
         == Primitive(lt(eq, st.dvars).coef[st.dvars[c]].name)
  {
    EquationShape(st, eq, x, lt);
    var names := CoefNames(lt(eq, st.dvars), st.dvars);
    PushedCoefs(WithMatrix(st), st.deq, names, c);
  }

  /** A homogeneous equation also records a right-hand side naming `x`,
      leaves every other row as it was and moves on to the next equation. */
  lemma {:induction false} EquationRhs(st: LinearState, eq: Expr, x: Name, lt: LinearTestFn)
    requires Ready(st) && st.deq < |st.dvars| && CoefsNamed(lt(eq, st.dvars), st.dvars)
    requires lt(eq, st.dvars).isHomogeneous
    ensures EquationStep(st, eq, x, lt).deq == st.deq + 1
    ensures EquationStep(st, eq, x, lt).rhs[..st.deq] == st.rhs
    ensures EquationStep(st, eq, x, lt).rhs[st.deq] < |EquationStep(st, eq, x, lt).symtbl|
    ensures EquationStep(st, eq, x, lt).symtbl[EquationStep(st, eq, x, lt).rhs[st.deq]] == Primitive(x)
    ensures EquationStep(st, eq, x, lt).symtbl[..|st.symtbl|] == st.symtbl
    ensures forall k :: 0 <= k < |st.dvars| && k != st.deq ==>
      EquationStep(st, eq, x, lt).rows[k] == WithMatrix(st).rows[k]
    ensures EquationStep(st, eq, x, lt).stmts == st.stmts && EquationStep(st, eq, x, lt).errors == st.errors
  {
    var names := CoefNames(lt(eq, st.dvars), st.dvars);
    var st1 := WithMatrix(st);
    var pushed := PushCoefs(st1, st1.deq, Collect(names, |names|));
    assert pushed.symtbl[..|st.symtbl|] == st.symtbl;
  }

  /** An equation that is not homogeneous is reported, and nothing else
      changes beyond the matrix being allocated; this holds with no free
      row left as well. */
  lemma {:induction false} EquationRejected(st: LinearState, eq: Expr, x: Name, lt: LinearTestFn)
    requires Ready(st) && RowReady(st, eq, lt)
    ensures EquationStep(st, eq, x, lt).errors != st.errors <==> !lt(eq, st.dvars).isHomogeneous
    ensures !lt(eq, st.dvars).isHomogeneous ==>
      EquationStep(st, eq, x, lt) == WithMatrix(st).(errors := st.errors + [NotHomogeneous])
  {
  }

  /** One statement: a LINEAR one writes nothing and either is reported or
      takes the next row; any other is copied. */
  lemma {:induction false} StmtStepFacts(st: LinearState, s: Stmt, lt: LinearTestFn)
    requires Ready(st) && (s.Linear? ==> RowReady(st, s.equation, lt))
    ensures StmtStep(st, s, lt).stmts == st.stmts + (if s.Linear? then [] else [s])
    ensures StmtStep(st, s, lt).errors == st.errors
         || StmtStep(st, s, lt).errors == st.errors + [NotHomogeneous]
    ensures StmtStep(st, s, lt).errors == st.errors ==>
      StmtStep(st, s, lt).deq == st.deq + (if s.Linear? then 1 else 0)
    ensures |StmtStep(st, s, lt).errors| == |st.errors| + (if s.Linear? && !TakesRow(s, st.dvars, lt) then 1 else 0)
  {
    if s.Linear? {
      EquationRejected(st, s.equation, s.rhsName, lt);
      if lt(s.equation, st.dvars).isHomogeneous {
        EquationRhs(st, s.equation, s.rhsName, lt);
      }
    }
  }

  /** Over a block: statements other than LINEAR ones are copied in order,
      diagnostics only grow, one per LINEAR statement that takes no row,
      and when none is added every LINEAR statement took the next row and
      recorded its right-hand side. */
  lemma {:induction false} LinearBlock(st: LinearState, block: seq<Stmt>, lt: LinearTestFn)
    requires Ready(st) && st.deq + RowCount(block, st.dvars, lt) <= |st.dvars| && EquationsNamed(block, st.dvars, lt)
    ensures LinearStmts(st, block, lt).stmts == st.stmts + Others(block)
    ensures |st.errors| <= |LinearStmts(st, block, lt).errors|
    ensures LinearStmts(st, block, lt).errors[..|st.errors|] == st.errors
    ensures |LinearStmts(st, block, lt).errors| == |st.errors| + LinearCount(block) - RowCount(block, st.dvars, lt)
    ensures LinearStmts(st, block, lt).errors == st.errors ==>
      LinearStmts(st, block, lt).deq == st.deq + LinearCount(block) == |LinearStmts(st, block, lt).rhs|
  {
    if block != [] {
      var init := block[..|block| - 1];
      var s := block[|block| - 1];
      assert forall i :: 0 <= i < |init| ==> init[i] == block[i];
      LinearBlock(st, init, lt);
      var pre := LinearStmts(st, init, lt);
      StmtStepFacts(pre, s, lt);
      var out := LinearStmts(st, block, lt);
      assert out == StmtStep(pre, s, lt);
      assert out.errors[..|st.errors|] == pre.errors[..|st.errors|];
    }
  }

  /** The snoc step of LinearStmts for the loop of VisitBlock. */
  lemma {:induction false} LinearStmtsSnoc(st: LinearState, block: seq<Stmt>, i: nat, lt: LinearTestFn)
    requires Ready(st) && i < |block| && EquationsNamed(block, st.dvars, lt)
    requires st.deq + RowCount(block[..i + 1], st.dvars, lt) <= |st.dvars|
    ensures st.deq + RowCount(block[..i], st.dvars, lt) <= |st.dvars| && EquationsNamed(block[..i], st.dvars, lt)
    ensures EquationsNamed(block[..i + 1], st.dvars, lt)
    ensures block[i].Linear? ==> RowReady(LinearStmts(st, block[..i], lt), block[i].equation, lt)
    ensures LinearStmts(st, block[..i + 1], lt) == StmtStep(LinearStmts(st, block[..i], lt), block[i], lt)
  {
    assert block[..i + 1][..i] == block[..i];
    assert block[..i + 1][i] == block[i];
  }

  /** Statements taking a row in a prefix never outnumber those in the block. */
  lemma {:induction false} RowCountMono(block: seq<Stmt>, dvars: seq<Name>, lt: LinearTestFn, i: nat, j: nat)
    requires i <= j <= |block|
    ensures RowCount(block[..i], dvars, lt) <= RowCount(block[..j], dvars, lt)
    decreases j
  {
    if i < j {
      RowCountMono(block, dvars, lt, i, j - 1);
      assert block[..j][..j - 1] == block[..j - 1];
    }
  }

  lemma {:induction false} PushCoefsSnoc(st: LinearState, row: nat, names: seq<Option<Name>>, j: nat)
    requires row < |st.rows| && j < |names|
    ensures names[j].Some? ==>
      PushCoefs(st, row, Collect(names, j + 1)) ==
        PushCoefs(st, row, Collect(names, j)).(
          rows := PushCoefs(st, row, Collect(names, j)).rows[row := PushCoefs(st, row, Collect(names, j)).rows[row]
                   + [(j, |PushCoefs(st, row, Collect(names, j)).symtbl|)]],
          symtbl := PushCoefs(st, row, Collect(names, j)).symtbl + [Primitive(names[j].value)])
    ensures names[j].None? ==> PushCoefs(st, row, Collect(names, j + 1)) == PushCoefs(st, row, Collect(names, j))
  {
    var es := Collect(names, j);
    if names[j].Some? {
      var e := (j, names[j].value);
      assert Collect(names, j + 1) == es + [e];
      RowOfSnoc(es, e, |st.symtbl|);
      assert NamesOf(es + [e]) == NamesOf(es) + [Primitive(names[j].value)];
      assert st.rows[row] + RowOf(es + [e], |st.symtbl|) == st.rows[row] + RowOf(es, |st.symtbl|) + [(j, |st.symtbl| + |es|)];
      assert st.symtbl + NamesOf(es + [e]) == st.symtbl + NamesOf(es) + [Primitive(names[j].value)];
    } else {
      assert Collect(names, j + 1) == es;
    }
  }

  lemma PushNothing(st: LinearState, row: nat)
    requires row < |st.rows|
    ensures PushCoefs(st, row, []) == st
  {
    assert st.rows[row] + RowOf<Name>([], |st.symtbl|) == st.rows[row];
    assert st.rows[row := st.rows[row]] == st.rows;
    assert st.symtbl + NamesOf([]) == st.symtbl;
  }

  class LinearSolver {
    var dvars: seq<Name>
    var rows: seq<Row>
    var symtbl: Table
    var rhs: seq<Symbol>
    var statements: seq<Stmt>
    var errors: seq<Diag>
    var deqIndex: nat
    var nextTemp: nat
    const lt: LinearTestFn

    function State(): LinearState
      reads this
    {
      LinearState(dvars, rows, symtbl, rhs, statements, errors, deqIndex, nextTemp)
    }

    /** The unknowns are given, in order; the matrix is not yet allocated. */
    constructor (dvars: seq<Name>, lt: LinearTestFn, firstTemp: nat)
      ensures State() == LinearState(dvars, [], [], [], [], [], 0, firstTemp)
      ensures Ready(State()) && this.lt == lt
    {
      this.dvars, rows, symtbl, rhs := dvars, [], [], [];
      statements, errors, deqIndex, nextTemp := [], [], 0, firstTemp;
      this.lt := lt;
    }

    /** visit(BlockExpression*): every statement in order. */
    method VisitBlock(block: seq<Stmt>)
      requires Ready(State()) && deqIndex + RowCount(block, dvars, lt) <= |dvars| && EquationsNamed(block, dvars, lt)
      modifies this
      ensures State() == LinearStmts(old(State()), block, lt)
    {
      ghost var st0 := State();
      for i := 0 to |block|
        invariant st0.deq + RowCount(block[..i], st0.dvars, lt) <= |st0.dvars| && EquationsNamed(block[..i], st0.dvars, lt)
        invariant State() == LinearStmts(st0, block[..i], lt)
      {
        RowCountMono(block, st0.dvars, lt, i + 1, |block|);
        assert block[..|block|] == block;
        LinearStmtsSnoc(st0, block, i, lt);
        VisitStatement(block[i]);
      }
      assert block[..|block|] == block;
    }

    method VisitStatement(s: Stmt)
      requires Ready(State()) && (s.Linear? ==> RowReady(State(), s.equation, lt))
      modifies this
      ensures State() == StmtStep(old(State()), s, lt)
    {
      match s
      case Linear(eq, x) => VisitEquation(eq, x);
      case _ => statements := statements + [s];
    }

    /** visit(LinearExpression*). */
    method VisitEquation(eq: Expr, x: Name)
      requires Ready(State()) && RowReady(State(), eq, lt)
      modifies this
      ensures State() == EquationStep(old(State()), eq, x, lt)
    {
      ghost var st0 := State();
      rows := WithMatrix(State()).rows;
      assert State() == WithMatrix(st0);
      var r := lt(eq, dvars);
      if !r.isHomogeneous {
        errors := errors + [NotHomogeneous];
        return;
      }
      PushCoefficients(deqIndex, CoefNames(r, dvars));
      var d := Define(symtbl, x);
      symtbl, rhs, deqIndex := d.0, rhs + [d.1], deqIndex + 1;
    }

    /** The loop over the unknowns: each one with a coefficient gets an
        entry whose symbol is defined for the coefficient's name. */
    method PushCoefficients(row: nat, names: seq<Option<Name>>)
      requires row < |rows|
      modifies this
      ensures State() == PushCoefs(old(State()), row, Collect(names, |names|))
    {
      ghost var st0 := State();
      PushNothing(st0, row);
      for j := 0 to |names|
        invariant State() == PushCoefs(st0, row, Collect(names, j))
      {
        PushCoefsSnoc(st0, row, names, j);
        if names[j].Some? {
          var d := Define(symtbl, names[j].value);
          rows, symtbl := rows[row := rows[row] + [(j, d.1)]], d.0;
        }
      }
    }

    /** finalize(): augment with the right-hand sides, reduce, then the
        temporaries for the derived symbols and one update per unknown. */
    method Finalize(reduce: ReduceFn)
      requires |rhs| == |rows|
      requires Solvable(reduce(Augment(rows, rhs, |dvars|), symtbl).0, reduce(Augment(rows, rhs, |dvars|), symtbl).1, |dvars|)
      modifies this
      ensures dvars == old(dvars) && errors == old(errors) && rhs == old(rhs)
      ensures Solvable(rows, reduce(Augment(old(rows), rhs, |dvars|), old(symtbl)).1, |dvars|)
      ensures rows == reduce(Augment(old(rows), rhs, |dvars|), old(symtbl)).0
      ensures symtbl == Named(reduce(Augment(old(rows), rhs, |dvars|), old(symtbl)).1, old(nextTemp))
      ensures statements == old(statements)
        + TempDefs(reduce(Augment(old(rows), rhs, |dvars|), old(symtbl)).1, old(nextTemp),
                   |reduce(Augment(old(rows), rhs, |dvars|), old(symtbl)).1|)
        + RowUpdates(rows, symtbl, dvars)
      ensures nextTemp == old(nextTemp) + DerivedCount(reduce(Augment(old(rows), rhs, |dvars|), old(symtbl)).1,
                                                       |reduce(Augment(old(rows), rhs, |dvars|), old(symtbl)).1|)
    {
      var red := reduce(Augment(rows, rhs, |dvars|), symtbl);
      NamedSolvable(red.0, red.1, |dvars|, nextTemp);
      var stmts, named, next' := EmitSolution(red.0, red.1, dvars, nextTemp);
      rows, symtbl, statements, nextTemp := red.0, named, statements + stmts, next';
    }
  }
}
