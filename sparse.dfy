/** SparseSolverVisitor: rewrites a kinetic or derivative block into the
    implicit Euler step, assembling the system matrix over a symbol table,
    replacing rows by conservation laws, and emitting the solved updates. */
module Sparse {
  import opened Wrappers
  import opened Ast
  import opened Blocks
  import opened LinearTest
  import opened Symge
  import opened SparseSpec
  import opened SparseProps

  /** Later statements only extend the first-pass variables of a prefix. */
  lemma {:induction false} DerivVarsMono(block: seq<Stmt>, i: nat, j: nat)
    requires i <= j <= |block|
    ensures |DerivVars(block[..i])| <= |DerivVars(block[..j])|
    decreases j
  {
    if i < j {
      DerivVarsMono(block, i, j - 1);
      assert block[..j][..j - 1] == block[..j - 1];
    }
  }

  /** The first-pass variables of a prefix one statement longer. */
  lemma {:induction false} PrefixBounds(block: seq<Stmt>, i: nat)
    requires i < |block|
    ensures |DerivVars(block[..i + 1])| == |DerivVars(block[..i])| + (if IsDerivAssign(block[i]) then 1 else 0)
    ensures |DerivVars(block[..i + 1])| <= |DerivVars(block)|
    ensures ConservesNonempty(block) ==> ConservesNonempty(block[..i]) && ConservesNonempty(block[..i + 1])
  {
    assert block[..i + 1][..i] == block[..i];
    DerivVarsMono(block, i + 1, |block|);
    assert block[..|block|] == block;
  }

  /** One statement more of the block, as the loop of VisitStatements takes
      it: the step is defined, and the prefix result is extended by it. */
  lemma {:induction false} SparseStmtsSnoc(st: SparseState, block: seq<Stmt>, i: nat, lt: LinearTestFn)
    requires Ready(st) && i < |block| && ConservesNonempty(block[..i + 1])
    requires st.deq + |DerivVars(block[..i + 1])| <= |st.dvars|
    requires |DerivVars(block[..i + 1])| == |DerivVars(block[..i])| + (if IsDerivAssign(block[i]) then 1 else 0)
    requires ConservesNonempty(block[..i])
    ensures IsDerivAssign(block[i]) ==> SparseStmts(st, block[..i], lt).deq < |st.dvars|
    ensures block[i].Conserve? ==> block[i].terms != []
    ensures SparseStmts(st, block[..i + 1], lt) == StmtStep(SparseStmts(st, block[..i], lt), block[i], lt)
  {
    assert block[..i + 1][..i] == block[..i];
    assert block[..i + 1][i] == block[i];
  }

  /** Pushing no entries changes nothing. */
  lemma PushNothing(st: SparseState, row: nat)
    requires row < |st.rows|
    ensures PushEntries(st, row, []) == st
  {
    assert st.rows[row] + RowOf<Expr>([], |st.symtbl|) == st.rows[row];
    assert st.rows[row := st.rows[row]] == st.rows;
    assert st.stmts + EmitTemps([], st.next) == st.stmts;
    assert st.symtbl + SymsOf([], st.next) == st.symtbl;
  }

  lemma {:induction false} SymsOfSnoc(es: seq<(nat, Expr)>, x: (nat, Expr), next: nat)
    ensures SymsOf(es + [x], next) == SymsOf(es, next) + [Primitive(Temp(A_PREFIX, next + |es|))]
  {
  }

  /** One entry more: a fresh `a_` temporary holding `e`, defined as a new
      symbol, which row `row` names at column j. */
  function PushOne(st: SparseState, row: nat, j: nat, e: Expr): SparseState
    requires row < |st.rows|
  {
    st.(stmts := st.stmts + LocalAssign(Temp(A_PREFIX, st.next), e),
        rows := st.rows[row := st.rows[row] + [(j, |st.symtbl|)]],
        symtbl := st.symtbl + [Primitive(Temp(A_PREFIX, st.next))],
        next := st.next + 1)
  }

  /** The state after pushing one more entry. */
  lemma {:induction false} PushSnoc(st: SparseState, row: nat, col: seq<Option<Expr>>, j: nat)
    requires row < |st.rows| && j < |col|
    ensures var pre := PushEntries(st, row, Collect(col, j));
      PushEntries(st, row, Collect(col, j + 1)) ==
        if col[j].Some? then PushOne(pre, row, j, col[j].value) else pre
  {
    var es := Collect(col, j);
    if col[j].Some? {
      var x := (j, col[j].value);
      var es' := es + [x];
      assert Collect(col, j + 1) == es';
      assert es'[..|es'| - 1] == es;
      var sym0 := |st.symtbl|;
      assert EmitTemps(es', st.next) == EmitTemps(es, st.next) + LocalAssign(Temp(A_PREFIX, st.next + |es|), col[j].value);
      RowOfSnoc(es, x, sym0);
      SymsOfSnoc(es, x, st.next);
      assert st.rows[row] + RowOf(es', sym0) == (st.rows[row] + RowOf(es, sym0)) + [(j, sym0 + |es|)];
      assert st.stmts + EmitTemps(es', st.next)
          == (st.stmts + EmitTemps(es, st.next)) + LocalAssign(Temp(A_PREFIX, st.next + |es|), col[j].value);
      assert st.symtbl + SymsOf(es', st.next)
          == (st.symtbl + SymsOf(es, st.next)) + [Primitive(Temp(A_PREFIX, st.next + |es|))];
    } else {
      assert Collect(col, j + 1) == es;
    }
  }

  /** An assignment sets up the matrix first, so setting it up beforehand
      changes nothing. */
  lemma AssignStepMatrix(st: SparseState, lhs: LValue, rhs: Expr, lt: LinearTestFn)
    requires Ready(st) && (lhs.Deriv? ==> st.deq < |st.dvars|)
    ensures AssignStep(st, lhs, rhs, lt) == AssignStep(WithMatrix(st), lhs, rhs, lt)
  {
  }

  /** The three outcomes of a CONSERVE statement, one per case. */
  lemma ConserveStepCases(st: SparseState, terms: seq<StoichTerm>, total: Expr)
    requires Ready(st) && terms != []
    ensures !terms[0].ident.Ident? ==>
      ConserveStep(st, terms, total) == WithMatrix(st).(conserve := true).(errors := st.errors + [ConserveNotIdentifier])
    ensures terms[0].ident.Ident? && IndexOf(st.dvars, terms[0].ident.name).None? ==>
      ConserveStep(st, terms, total) == WithMatrix(st).(conserve := true).(errors := st.errors + [ConserveUnknown])
    ensures terms[0].ident.Ident? && IndexOf(st.dvars, terms[0].ident.name).Some? ==>
      ConserveStep(st, terms, total) ==
        ConserveFinish(PushEntries(WithMatrix(st).(conserve := true).(rows := WithMatrix(st).rows[IndexOf(st.dvars, terms[0].ident.name).value := []]),
                                   IndexOf(st.dvars, terms[0].ident.name).value,
                                   Collect(ConserveColumn(terms, st.dvars, st.scale), |st.dvars|)),
                       IndexOf(st.dvars, terms[0].ident.name).value, total)
  {
  }

  /** The last part of a CONSERVE statement: the temporary for the total. */
  function ConserveFinish(st: SparseState, row: nat, total: Expr): (r: SparseState)
  {
    st.(stmts := st.stmts + LocalAssign(Temp(A_PREFIX, st.next), total),
        conserveRhs := st.conserveRhs + [Temp(A_PREFIX, st.next)],
        conserveIdx := st.conserveIdx + [row],
        next := st.next + 1)
  }

  class SparseSolver {
    var dvars: seq<Name>
    var scale: seq<Option<Expr>>
    var rows: seq<Row>
    var symtbl: Table
    var statements: seq<Stmt>
    var errors: seq<Diag>
    var localExpr: map<Name, Expr>
    var deqIndex: nat
    var conserve: bool
    var conserveRhs: seq<Name>
    var conserveIdx: seq<nat>
    var nextTemp: nat
    const lt: LinearTestFn

    function State(): SparseState
      reads this
    {
      SparseState(dvars, scale, rows, symtbl, statements, errors, localExpr, deqIndex,
                  conserve, conserveRhs, conserveIdx, nextTemp)
    }

    constructor (lt: LinearTestFn, firstTemp: nat)
      ensures State() == SparseState([], [], [], [], [], [], map[], 0, false, [], [], firstTemp)
      ensures this.lt == lt
    {
      dvars, scale, rows, symtbl := [], [], [], [];
      statements, errors, localExpr, deqIndex := [], [], map[], 0;
      conserve, conserveRhs, conserveIdx, nextTemp := false, [], [], firstTemp;
      this.lt := lt;
    }

    /** visit(BlockExpression*): collect the state variables, size the scale
        factors, then visit the statements. */
    method VisitBlock(block: seq<Stmt>)
      requires Ready(State()) && rows == [] && deqIndex <= |dvars| && ConservesNonempty(block)
      modifies this
      ensures State() == SparseStmts(Prepared(old(State()), block), block, lt)
    {
      for i := 0 to |block|
        invariant dvars == old(dvars) + DerivVars(block[..i])
        invariant State() == old(State()).(dvars := dvars)
      {
        assert block[..i + 1][..i] == block[..i];
        if IsDerivAssign(block[i]) {
          dvars := dvars + [block[i].lhs.name];
        }
      }
      assert block[..|block|] == block;
      scale := Resize(scale, |dvars|);
      VisitStatements(block);
    }

    method VisitStatements(block: seq<Stmt>)
      requires Ready(State()) && deqIndex + |DerivVars(block)| <= |dvars| && ConservesNonempty(block)
      modifies this
      ensures State() == SparseStmts(old(State()), block, lt)
    {
      ghost var st0 := State();
      for i := 0 to |block|
        invariant st0.deq + |DerivVars(block[..i])| <= |st0.dvars| && ConservesNonempty(block[..i])
        invariant State() == SparseStmts(st0, block[..i], lt)
      {
        PrefixBounds(block, i);
        SparseStmtsSnoc(st0, block, i, lt);
        VisitStatement(block[i]);
      }
      assert block[..|block|] == block;
    }

    /** Assignments, COMPARTMENT and CONSERVE statements are visited; any
        other statement is copied. */
    method VisitStatement(s: Stmt)
      requires Ready(State()) && (IsDerivAssign(s) ==> deqIndex < |dvars|) && (s.Conserve? ==> s.terms != [])
      modifies this
      ensures State() == StmtStep(old(State()), s, lt)
    {
      match s
      case Assign(lhs, rhs) => VisitAssignment(lhs, rhs);
      case Compartment(e, vars) => VisitCompartment(e, vars);
      case Conserve(terms, total) => VisitConserve(terms, total);
      case _ => statements := statements + [s];
    }

    /** visit(CompartmentExpression*). */
    method VisitCompartment(e: Expr, vars: seq<Name>)
      requires Ready(State())
      modifies this
      ensures State() == CompartmentStep(old(State()), e, vars)
    {
      ghost var st0 := State();
      for i := 0 to |vars|
        invariant |scale| == |dvars| && State() == st0.(scale := scale)
        invariant ApplyScale(scale, dvars, vars[i..], e) == ApplyScale(st0.scale, st0.dvars, vars, e)
      {
        var idx := IndexOf(dvars, vars[i]);
        if idx.None? {
          errors := errors + [CompartmentNotUsed];
          return;
        }
        assert vars[i..][1..] == vars[i + 1..];
        scale := scale[idx.value := Some(e)];
      }
      assert vars[|vars|..] == [];
    }

    /** visit(AssignmentExpression*). */
    method VisitAssignment(lhs: LValue, rhs: Expr)
      requires Ready(State()) && (lhs.Deriv? ==> deqIndex < |dvars|)
      modifies this
      ensures State() == AssignStep(old(State()), lhs, rhs, lt)
    {
      ghost var st0 := State();
      rows := WithMatrix(State()).rows;
      assert State() == WithMatrix(st0);
      AssignStepMatrix(st0, lhs, rhs, lt);
      if !lhs.Deriv? {
        var expand := Substitute(rhs, localExpr);
        statements, localExpr := statements + [Assign(lhs, rhs)],
          if InvolvesAny(expand, dvars) then localExpr[lhs.name := expand] else localExpr;
        return;
      }
      if conserve && rows[deqIndex] != [] {
        deqIndex := deqIndex + 1;
        return;
      }
      var r := lt(Substitute(rhs, localExpr), dvars);
      if !r.isHomogeneous {
        errors := errors + [NotHomogeneous];
        return;
      }
      if lhs.name != dvars[deqIndex] {
        errors := errors + [InconsistentOrder];
        return;
      }
      PushEquation(SparseColumn(r, dvars, scale, deqIndex));
    }

    /** Writes the current equation's column into its row and moves on to
        the next equation. */
    method PushEquation(col: seq<Option<Expr>>)
      requires deqIndex < |rows|
      modifies this
      ensures State() == PushEntries(old(State()), old(deqIndex), Collect(col, |col|)).(deq := old(deqIndex) + 1)
    {
      PushColumn(deqIndex, col);
      deqIndex := deqIndex + 1;
    }

    /** visit(ConserveExpression*). */
    method VisitConserve(terms: seq<StoichTerm>, total: Expr)
      requires Ready(State()) && terms != []
      modifies this
      ensures State() == ConserveStep(old(State()), terms, total)
    {
      ConserveStepCases(State(), terms, total);
      ghost var st1 := WithMatrix(State()).(conserve := true);
      rows, conserve := WithMatrix(State()).rows, true;
      assert State() == st1;
      var first := terms[0].ident;
      if !first.Ident? {
        errors := errors + [ConserveNotIdentifier];
        return;
      }
      var idx := IndexOf(dvars, first.name);
      if idx.None? {
        errors := errors + [ConserveUnknown];
        return;
      }
      WriteConservedRow(idx.value, ConserveColumn(terms, dvars, scale), total);
    }

    /** Replaces row `row` by the conservation law's column, and defines the
        `a_` temporary for its total. */
    method WriteConservedRow(row: nat, col: seq<Option<Expr>>, total: Expr)
      requires row < |rows|
      modifies this
      ensures State() == ConserveFinish(PushEntries(old(State()).(rows := old(rows)[row := []]), row, Collect(col, |col|)), row, total)
    {
      rows := rows[row := []];
      ghost var cleared := State();
      assert cleared == old(State()).(rows := old(rows)[row := []]);
      PushColumn(row, col);
      ghost var pushed := State();
      var a := Temp(A_PREFIX, nextTemp);
      statements, conserveRhs, conserveIdx, nextTemp :=
        statements + LocalAssign(a, total), conserveRhs + [a], conserveIdx + [row], nextTemp + 1;
    }

    /** The loop over the columns: each column with an expression gets a
        fresh `a_` temporary and an entry naming its new symbol. */
    method PushColumn(row: nat, col: seq<Option<Expr>>)
      requires row < |rows|
      modifies this
      ensures State() == PushEntries(old(State()), row, Collect(col, |col|))
    {
      ghost var st0 := State();
      PushNothing(st0, row);
      for j := 0 to |col|
        invariant State() == PushEntries(st0, row, Collect(col, j))
      {
        PushSnoc(st0, row, col, j);
        if col[j].Some? {
          PushEntry(row, j, col[j].value);
        }
      }
    }

    method PushEntry(row: nat, j: nat, e: Expr)
      requires row < |rows|
      modifies this
      ensures State() == PushOne(old(State()), row, j, e)
    {
      var a := Temp(A_PREFIX, nextTemp);
      var (tbl, sym) := Define(symtbl, a);
      statements, rows, symtbl, nextTemp :=
        statements + LocalAssign(a, e), rows[row := rows[row] + [(j, sym)]], tbl, nextTemp + 1;
    }

    /** The first part of finalize(): a symbol for each state variable, then
        one for each conservation law's total, which replaces its row's. */
    method RhsColumn() returns (rhs: seq<Symbol>, tbl: Table)
      requires Ready(State())
      ensures rhs == RhsSymbols(State()) && tbl == RhsTable(State())
    {
      var dv := dvars;
      var n := |dv|;
      var base := |symtbl|;
      rhs := [];
      tbl := symtbl;
      for i := 0 to n
        invariant rhs == VarRhs(i, base)
        invariant tbl == symtbl + seq(i, k requires 0 <= k < i => Primitive(dv[k]))
      {
        var d := Define(tbl, dv[i]);
        tbl := d.0;
        rhs := rhs + [d.1];
      }
      ghost var dvarSyms := tbl;
      if conserve {
        var idx, crhs := conserveIdx, conserveRhs;
        for k := 0 to |idx|
          invariant rhs == ConservedRhs(n, base, idx, k)
          invariant tbl == dvarSyms + seq(k, m requires 0 <= m < k => Primitive(crhs[m]))
        {
          var d := Define(tbl, crhs[k]);
          tbl := d.0;
          rhs := rhs[idx[k] := d.1];
        }
      }
    }

    /** finalize(): the augmented column, the reduction, the temporaries for
        the derived symbols, and one update per row. */
    method Finalize(reduce: ReduceFn)
      requires Ready(State()) && |rows| == |dvars|
      requires var red := reduce(Augment(rows, RhsSymbols(State()), |dvars|), RhsTable(State()));
        Solvable(red.0, red.1, |dvars|)
      modifies this
      ensures dvars == old(dvars) && errors == old(errors)
      ensures var red := reduce(Augment(old(rows), RhsSymbols(old(State())), |dvars|), RhsTable(old(State())));
        && Solvable(red.0, red.1, |dvars|)
        && rows == red.0
        && symtbl == Named(red.1, old(nextTemp))
        && statements == old(statements) + TempDefs(red.1, old(nextTemp), |red.1|) + RowUpdates(red.0, symtbl, dvars)
        && nextTemp == old(nextTemp) + DerivedCount(red.1, |red.1|)
    {
      var rhs, tbl := RhsColumn();
      symtbl := tbl;
      var red := reduce(Augment(rows, rhs, |dvars|), symtbl);
      var stmts, named, next' := EmitSolution(red.0, red.1, dvars, nextTemp);
      rows := red.0;
      symtbl := named;
      statements := statements + stmts;
      nextTemp := next';
    }
  }
}
