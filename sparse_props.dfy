/** What the sparse solver's steps mean: the matrix entries it stores, the
    temporaries it emits for them, the diagnostics it reports, the rows the
    conservation laws replace and the augmented column it builds. */
module SparseProps {
  import opened Wrappers
  import opened Ast
  import opened Blocks
  import opened LinearTest
  import opened Symge
  import opened Semantics
  import opened SparseSpec

  lemma {:induction false} EmitTempsLength(es: seq<(nat, Expr)>, next: nat)
    ensures |EmitTemps(es, next)| == 2 * |es|
  {
    if es != [] {
      EmitTempsLength(es[..|es| - 1], next);
    }
  }

  /** The k-th entry's temporary is declared at statement 2k and assigned the
      entry's expression at statement 2k+1. */
  lemma {:induction false} EmitTempsShape(es: seq<(nat, Expr)>, next: nat, k: nat)
    requires k < |es|
    ensures |EmitTemps(es, next)| == 2 * |es|
    ensures EmitTemps(es, next)[2 * k] == LocalDecl({Temp(A_PREFIX, next + k)})
    ensures EmitTemps(es, next)[2 * k + 1] == Assign(Var(Temp(A_PREFIX, next + k)), es[k].1)
  {
    EmitTempsLength(es, next);
    var init := es[..|es| - 1];
    EmitTempsLength(init, next);
    if k < |es| - 1 {
      EmitTempsShape(init, next, k);
      assert init[k] == es[k];
    }
  }

  /** What pushing entries does to the row, and where the k-th entry's
      symbol and statements land. */
  lemma {:induction false} PushedAt(st: SparseState, row: nat, es: seq<(nat, Expr)>, k: nat)
    requires row < |st.rows| && st.rows[row] == [] && k < |es|
    ensures var out := PushEntries(st, row, es);
      && out.rows[row] == RowOf(es, |st.symtbl|)
      && |st.symtbl| + k < |out.symtbl|
      && out.symtbl[|st.symtbl| + k] == Primitive(Temp(A_PREFIX, st.next + k))
      && |st.stmts| + 2 * k + 1 < |out.stmts|
      && out.stmts[|st.stmts| + 2 * k] == LocalDecl({Temp(A_PREFIX, st.next + k)})
      && out.stmts[|st.stmts| + 2 * k + 1] == Assign(Var(Temp(A_PREFIX, st.next + k)), es[k].1)
  {
    assert [] + RowOf(es, |st.symtbl|) == RowOf(es, |st.symtbl|);
    EmitTempsShape(es, st.next, k);
  }

  /** Column c of row `row` of `out` holds a symbol naming a temporary
      numbered from `next0` on, which the statements from position `base` on
      declare and then assign `e`. */
  predicate EntryHolds(base: nat, next0: nat, out: SparseState, row: nat, c: nat, e: Expr) {
    && row < |out.rows|
    && RowAt(out.rows[row], c).Some?
    && RowAt(out.rows[row], c).value < |out.symtbl|
    && exists t: nat ::
         && next0 <= t < out.next
         && out.symtbl[RowAt(out.rows[row], c).value] == Primitive(Temp(A_PREFIX, t))
         && base + 2 * (t - next0) + 1 < |out.stmts|
         && out.stmts[base + 2 * (t - next0)] == LocalDecl({Temp(A_PREFIX, t)})
         && out.stmts[base + 2 * (t - next0) + 1] == Assign(Var(Temp(A_PREFIX, t)), e)
  }

  /** After pushing a column vector's entries onto an empty row, the row has
      an entry at column c exactly when the vector does, and it holds the
      vector's expression through a fresh temporary. */
  lemma {:induction false} PushedRowMeaning(st: SparseState, row: nat, col: seq<Option<Expr>>, c: nat)
    requires row < |st.rows| && st.rows[row] == [] && c < |col|
    ensures RowAt(PushEntries(st, row, Collect(col, |col|)).rows[row], c).Some? <==> col[c].Some?
    ensures col[c].Some? ==> EntryHolds(|st.stmts|, st.next, PushEntries(st, row, Collect(col, |col|)), row, c, col[c].value)
  {
    var es := Collect(col, |col|);
    RowOfLookup(col, |st.symtbl|, c);
    assert [] + RowOf(es, |st.symtbl|) == RowOf(es, |st.symtbl|);
    if col[c].Some? {
      CollectRank(col, c, |col|);
      var rank := |Collect(col, c)|;
      PushedAt(st, row, es, rank);
      assert st.next + rank - st.next == rank;
    }
  }

  /** The numbers the entries stand for: with c the value of the
      coefficient (zero when there is none) and f that of the column's scale
      factor (one when there is none), the stored expression evaluates to the
      entry of I - dt*C*F^-1, and an entry is left out only where that is 0. */
  lemma {:induction false} EntryMeaning(r: LinearResult, dvars: seq<Name>, scale: seq<Option<Expr>>, deq: nat, j: nat,
                                        env: Env, call: CallFn, c: real, f: real, v: real)
    requires j < |dvars| && |scale| == |dvars| && DT in env
    requires dvars[j] in r.coef ==> Eval(r.coef[dvars[j]], env, call) == Some(c)
    requires dvars[j] !in r.coef ==> c == 0.0
    requires scale[j].Some? ==> Eval(scale[j].value, env, call) == Some(f)
    requires scale[j].None? ==> f == 1.0
    requires f != 0.0 && v == MatrixEntry(j == deq, c, env[DT], f)
    ensures EntryExpr(r, dvars, scale, deq, j).None? ==> j != deq && v == 0.0
    ensures EntryExpr(r, dvars, scale, deq, j).Some? ==> Eval(EntryExpr(r, dvars, scale, deq, j).value, env, call) == Some(v)
  {
    var dt := env[DT];
    var w := c * dt / f;
    if dvars[j] in r.coef {
      var ce := r.coef[dvars[j]];
      var p := Bin(Mul, ce, Ident(DT));
      var q: Expr;
      if scale[j].Some? {
        EvalMul(ce, Ident(DT), env, call, c, dt, c * dt);
        EvalDiv(p, scale[j].value, env, call, c * dt, f, w);
        q := Bin(Div, p, scale[j].value);
      } else {
        assert w == c * dt;
        EvalMul(ce, Ident(DT), env, call, c, dt, w);
        q := p;
      }
      if j == deq {
        EvalSub(Num(1.0), q, env, call, 1.0, w, v);
      } else {
        EvalNeg(q, env, call, w, v);
      }
    } else {
      NoCoefficientEntry(j == deq, c, dt, f);
    }
  }

  lemma NoCoefficientEntry(diagonal: bool, c: real, dt: real, f: real)
    requires f != 0.0 && c == 0.0
    ensures MatrixEntry(diagonal, c, dt, f) == (if diagonal then 1.0 else 0.0)
  {
  }

  /** A derivative assignment that reaches the matrix, on a row not yet
      filled, stores exactly the entries EntryExpr gives, each through a
      fresh temporary; the equation index advances and no diagnostic is
      added. */
  lemma {:induction false} AssignEntries(st: SparseState, lhs: LValue, rhs: Expr, lt: LinearTestFn, c: nat)
    requires Ready(st) && lhs.Deriv? && st.deq < |st.dvars| && c < |st.dvars|
    requires st.rows == [] || st.rows[st.deq] == []
    requires Decompose(st, rhs, lt).isHomogeneous && lhs.name == st.dvars[st.deq]
    ensures AssignStep(st, lhs, rhs, lt).errors == st.errors
    ensures AssignStep(st, lhs, rhs, lt).deq == st.deq + 1
    ensures RowAt(AssignStep(st, lhs, rhs, lt).rows[st.deq], c).Some?
            <==> EntryExpr(Decompose(st, rhs, lt), st.dvars, st.scale, st.deq, c).Some?
    ensures EntryExpr(Decompose(st, rhs, lt), st.dvars, st.scale, st.deq, c).Some? ==>
      EntryHolds(|st.stmts|, st.next, AssignStep(st, lhs, rhs, lt), st.deq, c,
                 EntryExpr(Decompose(st, rhs, lt), st.dvars, st.scale, st.deq, c).value)
  {
    var r := Decompose(st, rhs, lt);
    var col := SparseColumn(r, st.dvars, st.scale, st.deq);
    var out := AssignStep(st, lhs, rhs, lt);
    var pushed := PushEntries(WithMatrix(st), st.deq, Collect(col, |col|));
    AssignStepShape(st, lhs, rhs, lt);
    PushedRowMeaning(WithMatrix(st), st.deq, col, c);
    assert col[c] == EntryExpr(r, st.dvars, st.scale, st.deq, c);
    assert out.rows == pushed.rows && out.symtbl == pushed.symtbl && out.stmts == pushed.stmts && out.next == pushed.next;
    assert |WithMatrix(st).stmts| == |st.stmts| && WithMatrix(st).next == st.next;
  }

  /** The state after a derivative assignment that reaches the matrix, in
      terms of the entries it pushes. */
  lemma {:induction false} AssignStepShape(st: SparseState, lhs: LValue, rhs: Expr, lt: LinearTestFn)
    requires Ready(st) && lhs.Deriv? && st.deq < |st.dvars|
    requires st.rows == [] || st.rows[st.deq] == []
    requires Decompose(st, rhs, lt).isHomogeneous && lhs.name == st.dvars[st.deq]
    ensures var col := SparseColumn(Decompose(st, rhs, lt), st.dvars, st.scale, st.deq);
      var pushed := PushEntries(WithMatrix(st), st.deq, Collect(col, |col|));
      && WithMatrix(st).rows[st.deq] == []
      && AssignStep(st, lhs, rhs, lt).rows == pushed.rows
      && AssignStep(st, lhs, rhs, lt).symtbl == pushed.symtbl
      && AssignStep(st, lhs, rhs, lt).stmts == pushed.stmts
      && AssignStep(st, lhs, rhs, lt).next == pushed.next
      && AssignStep(st, lhs, rhs, lt).errors == st.errors
      && AssignStep(st, lhs, rhs, lt).deq == st.deq + 1
  {
    assert Decompose(WithMatrix(st), rhs, lt) == Decompose(st, rhs, lt);
  }

  /** A derivative assignment either claims its row, adding no diagnostic,
      or adds exactly one diagnostic and changes nothing else but the matrix
      allocation: not homogeneous first, then an equation out of order. A
      row a conservation law already filled is skipped. */
  lemma {:induction false} AssignOutcome(st: SparseState, lhs: LValue, rhs: Expr, lt: LinearTestFn)
    requires Ready(st) && lhs.Deriv? && st.deq < |st.dvars|
    ensures st.conserve && st.rows != [] && st.rows[st.deq] != [] ==>
      AssignStep(st, lhs, rhs, lt) == st.(deq := st.deq + 1)
    ensures AssignStep(st, lhs, rhs, lt).deq == st.deq
      <==> !(st.conserve && st.rows != [] && st.rows[st.deq] != [])
           && (!Decompose(st, rhs, lt).isHomogeneous || lhs.name != st.dvars[st.deq])
    ensures AssignStep(st, lhs, rhs, lt).deq == st.deq + 1 ==> AssignStep(st, lhs, rhs, lt).errors == st.errors
    ensures AssignStep(st, lhs, rhs, lt).deq == st.deq ==>
      && AssignStep(st, lhs, rhs, lt).errors
         == st.errors + [if !Decompose(st, rhs, lt).isHomogeneous then NotHomogeneous else InconsistentOrder]
      && AssignStep(st, lhs, rhs, lt) == WithMatrix(st).(errors := AssignStep(st, lhs, rhs, lt).errors)
  {
    assert Decompose(WithMatrix(st), rhs, lt) == Decompose(st, rhs, lt);
  }

  /** CONSERVE always marks the solver as conserving. It adds a diagnostic
      exactly when its first term is not an identifier naming a state
      variable, and then changes nothing else but the matrix allocation;
      otherwise it records the replaced row and the temporary holding the
      law's total, which its last two statements declare and assign. */
  lemma {:induction false} ConserveOutcome(st: SparseState, terms: seq<StoichTerm>, total: Expr)
    requires Ready(st) && terms != []
    ensures ConserveStep(st, terms, total).conserve
    ensures ConserveStep(st, terms, total).errors == st.errors <==> ConservedRow(st, terms).Some?
    ensures ConservedRow(st, terms).None? ==>
      ConserveStep(st, terms, total)
      == WithMatrix(st).(conserve := true,
                         errors := st.errors + [if terms[0].ident.Ident? then ConserveUnknown else ConserveNotIdentifier])
    ensures ConservedRow(st, terms).Some? ==>
      && st.dvars[ConservedRow(st, terms).value] == terms[0].ident.name
      && ConserveStep(st, terms, total).conserveIdx == st.conserveIdx + [ConservedRow(st, terms).value]
      && ConserveStep(st, terms, total).conserveRhs
         == st.conserveRhs + [Temp(A_PREFIX, ConserveStep(st, terms, total).next - 1)]
      && |ConserveStep(st, terms, total).stmts| >= 2
      && ConserveStep(st, terms, total).stmts[|ConserveStep(st, terms, total).stmts| - 2..]
         == LocalAssign(Temp(A_PREFIX, ConserveStep(st, terms, total).next - 1), total)
  {
  }

  /** An entry stays in place when later steps only append statements and
      temporaries and leave its row and the table alone. */
  lemma {:induction false} EntryHoldsExtend(base: nat, next0: nat, mid: SparseState, out: SparseState, row: nat, c: nat, e: Expr)
    requires EntryHolds(base, next0, mid, row, c, e)
    requires row < |out.rows| && out.rows[row] == mid.rows[row] && out.symtbl == mid.symtbl
    requires |mid.stmts| <= |out.stmts| && out.stmts[..|mid.stmts|] == mid.stmts && mid.next <= out.next
    ensures EntryHolds(base, next0, out, row, c, e)
  {
    var t: nat :| && next0 <= t < mid.next
       && mid.symtbl[RowAt(mid.rows[row], c).value] == Primitive(Temp(A_PREFIX, t))
       && base + 2 * (t - next0) + 1 < |mid.stmts|
       && mid.stmts[base + 2 * (t - next0)] == LocalDecl({Temp(A_PREFIX, t)})
       && mid.stmts[base + 2 * (t - next0) + 1] == Assign(Var(Temp(A_PREFIX, t)), e);
    var i := base + 2 * (t - next0);
    assert out.stmts[i] == out.stmts[..|mid.stmts|][i];
    assert out.stmts[i + 1] == out.stmts[..|mid.stmts|][i + 1];
  }

  /** The state after a conservation law naming a state variable, in
      terms of the entries it pushes. */
  lemma {:induction false} ConserveStepShape(st: SparseState, terms: seq<StoichTerm>, total: Expr)
    requires Ready(st) && terms != [] && ConservedRow(st, terms).Some?
    ensures var st1 := WithMatrix(st).(conserve := true);
      var row := ConservedRow(st, terms).value;
      var col := ConserveColumn(terms, st.dvars, st.scale);
      var st2 := PushEntries(st1.(rows := st1.rows[row := []]), row, Collect(col, |col|));
      && row < |st1.rows|
      && ConserveStep(st, terms, total).rows == st2.rows
      && ConserveStep(st, terms, total).symtbl == st2.symtbl
      && ConserveStep(st, terms, total).stmts == st2.stmts + LocalAssign(Temp(A_PREFIX, st2.next), total)
      && ConserveStep(st, terms, total).next == st2.next + 1
  {
  }

  /** A conservation law's row, once written, has an entry at column c
      exactly when some term names dvars[c]. */
  lemma {:induction false} ConserveEntryPresent(st: SparseState, terms: seq<StoichTerm>, total: Expr, c: nat)
    requires Ready(st) && terms != [] && c < |st.dvars| && ConservedRow(st, terms).Some?
    ensures RowAt(ConserveStep(st, terms, total).rows[ConservedRow(st, terms).value], c).Some?
            <==> exists k :: 0 <= k < |terms| && terms[k].ident == Ident(st.dvars[c])
  {
    var st1 := WithMatrix(st).(conserve := true);
    var row := ConservedRow(st, terms).value;
    var col := ConserveColumn(terms, st.dvars, st.scale);
    ConserveStepShape(st, terms, total);
    PushedRowMeaning(st1.(rows := st1.rows[row := []]), row, col, c);
  }

  /** The entry at column c of a conservation law's row holds the first
      term's coefficient for dvars[c], times the column's scale factor when
      it has one. */
  lemma {:induction false} ConserveEntryValue(st: SparseState, terms: seq<StoichTerm>, total: Expr, c: nat)
    requires Ready(st) && terms != [] && c < |st.dvars| && ConservedRow(st, terms).Some?
    requires FindTerm(terms, st.dvars[c]).Some?
    ensures EntryHolds(|st.stmts|, st.next, ConserveStep(st, terms, total), ConservedRow(st, terms).value, c,
                       var k := FindTerm(terms, st.dvars[c]).value;
                       if st.scale[c].Some? then Bin(Mul, st.scale[c].value, terms[k].coeff) else terms[k].coeff)
  {
    var st1 := WithMatrix(st).(conserve := true);
    var row := ConservedRow(st, terms).value;
    var cleared := st1.(rows := st1.rows[row := []]);
    var col := ConserveColumn(terms, st.dvars, st.scale);
    var st2 := PushEntries(cleared, row, Collect(col, |col|));
    var out := ConserveStep(st, terms, total);
    ConserveStepShape(st, terms, total);
    PushedRowMeaning(cleared, row, col, c);
    assert out.stmts[..|st2.stmts|] == st2.stmts;
    EntryHoldsExtend(|st.stmts|, st.next, st2, out, row, c, col[c].value);
  }

  /** Whether a COMPARTMENT statement sets column i's factor: some listed
      variable is first found at i. */
  predicate Targeted(dvars: seq<Name>, vars: seq<Name>, i: nat) {
    exists k :: 0 <= k < |vars| && IndexOf(dvars, vars[k]) == Some(i)
  }

  /** COMPARTMENT succeeds exactly when every listed variable is a state
      variable, and then sets the factor of exactly the listed columns. */
  lemma {:induction false} ApplyScaleSpec(scale: seq<Option<Expr>>, dvars: seq<Name>, vars: seq<Name>, e: Expr)
    requires |scale| == |dvars|
    ensures var r := ApplyScale(scale, dvars, vars, e);
      && (r.1 <==> forall k :: 0 <= k < |vars| ==> vars[k] in dvars)
      && (r.1 ==> forall i :: 0 <= i < |scale| ==> r.0[i] == (if Targeted(dvars, vars, i) then Some(e) else scale[i]))
    decreases |vars|
  {
    if vars != [] {
      match IndexOf(dvars, vars[0])
      case None =>
      case Some(i0) =>
        var sc := scale[i0 := Some(e)];
        ApplyScaleSpec(sc, dvars, vars[1..], e);
        var r := ApplyScale(scale, dvars, vars, e);
        assert forall k :: 0 < k < |vars| ==> vars[1..][k - 1] == vars[k];
        if r.1 {
          forall i | 0 <= i < |scale|
            ensures r.0[i] == (if Targeted(dvars, vars, i) then Some(e) else scale[i])
          {
            if Targeted(dvars, vars[1..], i) {
              var k :| 0 <= k < |vars[1..]| && IndexOf(dvars, vars[1..][k]) == Some(i);
              assert IndexOf(dvars, vars[k + 1]) == Some(i);
            } else if i == i0 {
              assert IndexOf(dvars, vars[0]) == Some(i);
            }
          }
        }
    }
  }

  /** One statement's step: diagnostics are only ever appended, and a
      derivative assignment that adds none claims exactly one row. */
  lemma {:induction false} StmtStepCount(st: SparseState, s: Stmt, lt: LinearTestFn)
    requires Ready(st) && (IsDerivAssign(s) ==> st.deq < |st.dvars|) && (s.Conserve? ==> s.terms != [])
    ensures var out := StmtStep(st, s, lt);
      && |st.errors| <= |out.errors| && out.errors[..|st.errors|] == st.errors
      && (out.errors == st.errors ==> out.deq == st.deq + (if IsDerivAssign(s) then 1 else 0))
  {
    match s
    case Assign(lhs, rhs) =>
      if lhs.Deriv? {
        AssignOutcome(st, lhs, rhs, lt);
      }
    case Compartment(e, vars) =>
    case Conserve(terms, total) =>
      ConserveOutcome(st, terms, total);
    case _ =>
  }

  /** Over a block, when no diagnostic is added, every derivative equation
      claims exactly one row, in order. */
  lemma {:induction false} SparseDeqCount(st: SparseState, block: seq<Stmt>, lt: LinearTestFn)
    requires Ready(st) && st.deq + |DerivVars(block)| <= |st.dvars| && ConservesNonempty(block)
    ensures var out := SparseStmts(st, block, lt);
      && |st.errors| <= |out.errors| && out.errors[..|st.errors|] == st.errors
      && (out.errors == st.errors ==> out.deq == st.deq + |DerivVars(block)|)
  {
    if block != [] {
      var init := block[..|block| - 1];
      assert forall i :: 0 <= i < |init| ==> init[i] == block[i];
      SparseDeqCount(st, init, lt);
      var pre := SparseStmts(st, init, lt);
      StmtStepCount(pre, block[|block| - 1], lt);
      var out := SparseStmts(st, block, lt);
      assert out.errors[..|pre.errors|] == pre.errors;
      assert out.errors[..|st.errors|] == pre.errors[..|st.errors|];
    }
  }

  /** The augmented column after k overrides: the symbol of the last
      override of row i among them, or row i's own variable's symbol. */
  lemma {:induction false} ConservedRhsMeaning(n: nat, base: nat, idx: seq<nat>, k: nat, i: nat)
    requires k <= |idx| && (forall m :: 0 <= m < |idx| ==> idx[m] < n) && i < n
    ensures ConservedRhs(n, base, idx, k)[i] ==
      match LastOverride(idx, i, k)
      case None => base + i
      case Some(m) => base + n + m
  {
    if k > 0 {
      ConservedRhsMeaning(n, base, idx, k - 1, i);
    }
  }

  /** What the augmented column names, row by row: the row's own state
      variable, unless a conservation law was recorded for the row, in which
      case the right-hand side temporary of the last such law. */
  lemma {:induction false} RhsNames(st: SparseState, i: nat)
    requires Ready(st) && i < |st.dvars|
    ensures var rhs := RhsSymbols(st);
      var last := LastOverride(st.conserveIdx, i, if st.conserve then |st.conserveIdx| else 0);
      && rhs[i] < |RhsTable(st)|
      && RhsTable(st)[rhs[i]] == Primitive(if last.Some? then st.conserveRhs[last.value] else st.dvars[i])
  {
    var n := |st.dvars|;
    var base := |st.symtbl|;
    var k := if st.conserve then |st.conserveIdx| else 0;
    ConservedRhsMeaning(n, base, st.conserveIdx, k, i);
  }
}
