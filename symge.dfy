/** The symbolic sparse matrices the kinetic and linear solvers assemble, and
    what they emit from them once reduced. The library that performs the
    reduction (symge) is not part of this model: its symbols are indices
    into a table, a primitive symbol names a variable or a temporary, and a
    derived symbol is defined by a difference of two products of earlier
    symbols. The reduction itself is a function parameter. */
module Symge {
  import opened Wrappers
  import opened Ast
  import opened Semantics

  type Symbol = nat

  /** symbol_term: zero, or the product of two symbols. */
  datatype Term = ZeroTerm | Prod(left: Symbol, right: Symbol)

  /** symbol_term_diff: left - right. */
  datatype TermDiff = TermDiff(left: Term, right: Term)

  /** A symbol table entry; the name of a derived symbol is the one the
      solver gives it when it emits its temporary. */
  datatype Entry = Primitive(name: Name) | Derived(name: Name, def: TermDiff)

  type Table = seq<Entry>

  /** A sparse row: (column, symbol) entries in the order they were pushed. */
  type Row = seq<(nat, Symbol)>

  /** The reduction (gj_reduce): a reduced matrix and an extended table. */
  type ReduceFn = (seq<Row>, Table) -> (seq<Row>, Table)

  predicate TermIn(t: Term, bound: nat) {
    t.Prod? ==> t.left < bound && t.right < bound
  }

  predicate DiffIn(d: TermDiff, bound: nat) {
    TermIn(d.left, bound) && TermIn(d.right, bound)
  }

  /** Every derived symbol is defined from earlier symbols only. */
  predicate WellFormed(tbl: Table) {
    forall i :: 0 <= i < |tbl| && tbl[i].Derived? ==> DiffIn(tbl[i].def, i)
  }

  predicate RowIn(row: Row, bound: nat) {
    forall k :: 0 <= k < |row| ==> row[k].1 < bound
  }

  lemma RowAtIn(row: Row, c: nat, bound: nat)
    requires RowIn(row, bound) && RowAt(row, c).Some?
    ensures RowAt(row, c).value < bound
  {
  }

  /** define(name): a new primitive symbol, at the end of the table. */
  function Define(tbl: Table, x: Name): (r: (Table, Symbol))
    ensures r.1 == |tbl| && r.0 == tbl + [Primitive(x)]
    ensures r.1 < |r.0| && r.0[r.1].name == x
  {
    (tbl + [Primitive(x)], |tbl|)
  }

  /** row[c]: the symbol stored in column `c`, if any. */
  function RowAt(row: Row, c: nat): (r: Option<Symbol>)
    ensures r.None? <==> forall k :: 0 <= k < |row| ==> row[k].0 != c
    ensures r.Some? ==> exists k :: 0 <= k < |row| && row[k] == (c, r.value)
  {
    if row == [] then None
    else if row[0].0 == c then Some(row[0].1)
    else
      var rest := RowAt(row[1..], c);
      assert forall k :: 0 < k < |row| ==> row[1..][k - 1] == row[k];
      rest
  }

  /** The first column below `n` holding a symbol, scanning from column `c`. */
  function FirstNonzeroFrom(row: Row, c: nat, n: nat): (r: Option<nat>)
    decreases n - c
    ensures r.Some? ==> c <= r.value < n && RowAt(row, r.value).Some?
    ensures r.Some? ==> forall j :: c <= j < r.value ==> RowAt(row, j).None?
    ensures r.None? ==> forall j :: c <= j < n ==> RowAt(row, j).None?
  {
    if c >= n then None
    else if RowAt(row, c).Some? then Some(c)
    else FirstNonzeroFrom(row, c + 1, n)
  }

  /** The leading column of a row of an n-column matrix. */
  function FirstNonzero(row: Row, n: nat): (r: Option<nat>)
    ensures r.Some? ==> r.value < n && RowAt(row, r.value).Some?
    ensures r.Some? ==> forall j :: 0 <= j < r.value ==> RowAt(row, j).None?
    ensures r.None? ==> forall j :: 0 <= j < n ==> RowAt(row, j).None?
  {
    FirstNonzeroFrom(row, 0, n)
  }

  /** The stored entries for the columns below j, in column order: a pair
      (column, expression) for every column that has an expression. */
  function Collect<T>(col: seq<Option<T>>, j: nat): seq<(nat, T)>
    requires j <= |col|
  {
    if j == 0 then []
    else
      Collect(col, j - 1) + (if col[j - 1].Some? then [(j - 1, col[j - 1].value)] else [])
  }

  /** The row entries for `es`, the k-th naming symbol sym0 + k. */
  function RowOf<T>(es: seq<(nat, T)>, sym0: nat): (r: Row)
    ensures |r| == |es|
  {
    seq(|es|, k requires 0 <= k < |es| => (es[k].0, sym0 + k))
  }

  /** Appending an entry appends its row entry, naming the next symbol. */
  lemma {:induction false} RowOfSnoc<T>(es: seq<(nat, T)>, x: (nat, T), sym0: nat)
    ensures RowOf(es + [x], sym0) == RowOf(es, sym0) + [(x.0, sym0 + |es|)]
  {
    assert forall k :: 0 <= k < |es| ==> (es + [x])[k] == es[k];
  }

  /** Collect keeps, in increasing column order, exactly the columns that
      have an expression, each with its expression. */
  lemma {:induction false} CollectSpec<T>(col: seq<Option<T>>, j: nat)
    requires j <= |col|
    ensures forall k :: 0 <= k < |Collect(col, j)| ==>
      Collect(col, j)[k].0 < j && col[Collect(col, j)[k].0] == Some(Collect(col, j)[k].1)
    ensures forall k, l :: 0 <= k < l < |Collect(col, j)| ==> Collect(col, j)[k].0 < Collect(col, j)[l].0
    ensures forall c :: 0 <= c < j && col[c].Some? ==>
      exists k :: 0 <= k < |Collect(col, j)| && Collect(col, j)[k] == (c, col[c].value)
  {
    forall c | 0 <= c < j && col[c].Some?
      ensures exists k :: 0 <= k < |Collect(col, j)| && Collect(col, j)[k] == (c, col[c].value)
    {
      CollectRank(col, c, j);
    }
    if j > 0 {
      CollectSpec(col, j - 1);
      var pre := Collect(col, j - 1);
      var es := Collect(col, j);
      if col[j - 1].Some? {
        assert es == pre + [(j - 1, col[j - 1].value)];
      } else {
        assert es == pre;
      }
      forall k | 0 <= k < |es|
        ensures es[k].0 < j && col[es[k].0] == Some(es[k].1)
      {
        if k < |pre| {
          assert es[k] == pre[k];
        } else {
          assert es[k] == (j - 1, col[j - 1].value);
        }
      }
      forall k, l | 0 <= k < l < |es|
        ensures es[k].0 < es[l].0
      {
        assert es[k] == pre[k];
        if l < |pre| {
          assert es[l] == pre[l];
        } else {
          assert es[l] == (j - 1, col[j - 1].value);
        }
      }
    }
  }

  /** A column with an expression is stored at position |Collect(col, c)|,
      the number of columns before it that have one. */
  lemma {:induction false} CollectRank<T>(col: seq<Option<T>>, c: nat, j: nat)
    requires c < j <= |col| && col[c].Some?
    ensures |Collect(col, c)| < |Collect(col, j)|
    ensures Collect(col, j)[|Collect(col, c)|] == (c, col[c].value)
  {
    if j > c + 1 {
      CollectRank(col, c, j - 1);
    }
  }

  /** A row built from a column vector has an entry at column c exactly when
      the vector does, and it is the symbol at c's position. */
  lemma {:induction false} RowOfLookup<T>(col: seq<Option<T>>, sym0: nat, c: nat)
    requires c < |col|
    ensures var sym := RowAt(RowOf(Collect(col, |col|), sym0), c);
      && (sym.Some? <==> col[c].Some?)
      && (sym.Some? ==> sym.value == sym0 + |Collect(col, c)|)
  {
    var es := Collect(col, |col|);
    var row := RowOf(es, sym0);
    CollectSpec(col, |col|);
    var sym := RowAt(row, c);
    if col[c].Some? {
      CollectRank(col, c, |col|);
      var rank := |Collect(col, c)|;
      assert row[rank].0 == c;
      var k :| 0 <= k < |row| && row[k] == (c, sym.value);
      assert es[k].0 == es[rank].0;
      assert k == rank;
    }
  }

  /** augment(rhs): the right-hand sides become column n of each row. */
  function Augment(rows: seq<Row>, rhs: seq<Symbol>, n: nat): (r: seq<Row>)
    requires |rhs| == |rows|
    ensures |r| == |rows|
    ensures forall i :: 0 <= i < |rows| ==> r[i] == rows[i] + [(n, rhs[i])]
  {
    seq(|rows|, i requires 0 <= i < |rows| => rows[i] + [(n, rhs[i])])
  }

  /** Augmenting keeps every original column and puts the right-hand side in
      column n, provided the rows held nothing there. */
  lemma {:induction false} AugmentColumns(rows: seq<Row>, rhs: seq<Symbol>, n: nat, i: nat, c: nat)
    requires |rhs| == |rows| && i < |rows| && RowAt(rows[i], n).None?
    ensures RowAt(Augment(rows, rhs, n)[i], n) == Some(rhs[i])
    ensures c != n ==> RowAt(Augment(rows, rhs, n)[i], c) == RowAt(rows[i], c)
  {
    RowAtSnoc(rows[i], n, rhs[i], n);
    RowAtSnoc(rows[i], n, rhs[i], c);
  }

  lemma {:induction false} RowAtSnoc(row: Row, col: nat, s: Symbol, c: nat)
    ensures RowAt(row + [(col, s)], c) == (if RowAt(row, c).Some? then RowAt(row, c) else if c == col then Some(s) else None)
  {
    if row != [] {
      assert (row + [(col, s)])[1..] == row[1..] + [(col, s)];
      RowAtSnoc(row[1..], col, s, c);
    } else {
      assert (row + [(col, s)])[1..] == [];
    }
  }

  /** as_expression(symbol_term). */
  function TermExpr(t: Term, tbl: Table): Expr
    requires TermIn(t, |tbl|)
  {
    match t
    case ZeroTerm => IntLit(0)
    case Prod(l, r) => Bin(Mul, Ident(tbl[l].name), Ident(tbl[r].name))
  }

  /** as_expression(symbol_term_diff): zero terms are left out rather than
      subtracted. */
  function DiffExpr(d: TermDiff, tbl: Table): Expr
    requires DiffIn(d, |tbl|)
  {
    if d.left.ZeroTerm? && d.right.ZeroTerm? then IntLit(0)
    else if d.right.ZeroTerm? then TermExpr(d.left, tbl)
    else if d.left.ZeroTerm? then Neg(TermExpr(d.right, tbl))
    else Bin(Sub, TermExpr(d.left, tbl), TermExpr(d.right, tbl))
  }

  /** The value of a term when every symbol's name is bound in `env`. */
  function TermValue(t: Term, tbl: Table, env: Env): Option<real>
    requires TermIn(t, |tbl|)
  {
    match t
    case ZeroTerm => Some(0.0)
    case Prod(l, r) =>
      if tbl[l].name in env && tbl[r].name in env then Some(env[tbl[l].name] * env[tbl[r].name]) else None
  }

  function DiffValue(d: TermDiff, tbl: Table, env: Env): Option<real>
    requires DiffIn(d, |tbl|)
  {
    match (TermValue(d.left, tbl, env), TermValue(d.right, tbl, env))
    case (Some(x), Some(y)) => Some(x - y)
    case _ => None
  }

  /** The expression emitted for a product has the product's value. */
  lemma {:induction false} TermExprMeaning(t: Term, tbl: Table, env: Env, call: CallFn)
    requires TermIn(t, |tbl|)
    ensures Eval(TermExpr(t, tbl), env, call) == TermValue(t, tbl, env)
  {
    match t
    case ZeroTerm =>
    case Prod(l, r) =>
      if tbl[l].name in env && tbl[r].name in env {
        EvalMul(Ident(tbl[l].name), Ident(tbl[r].name), env, call,
                env[tbl[l].name], env[tbl[r].name], TermValue(t, tbl, env).value);
      }
  }

  /** Leaving zero terms out does not change the value: the expression
      emitted for a derived symbol evaluates to left - right. */
  lemma {:induction false} DiffExprMeaning(d: TermDiff, tbl: Table, env: Env, call: CallFn)
    requires DiffIn(d, |tbl|)
    ensures Eval(DiffExpr(d, tbl), env, call) == DiffValue(d, tbl, env)
  {
    TermExprMeaning(d.left, tbl, env, call);
    TermExprMeaning(d.right, tbl, env, call);
    var l, r := TermValue(d.left, tbl, env), TermValue(d.right, tbl, env);
    if d.left.ZeroTerm? && d.right.ZeroTerm? {
      assert DiffValue(d, tbl, env) == Some(0.0 - 0.0);
    } else if d.right.ZeroTerm? {
      if l.Some? {
        assert l.value - 0.0 == l.value;
      }
    } else if d.left.ZeroTerm? {
      if r.Some? {
        assert 0.0 - r.value == -r.value;
      }
    } else if l.Some? && r.Some? {
      EvalSub(TermExpr(d.left, tbl), TermExpr(d.right, tbl), env, call, l.value, r.value, l.value - r.value);
    }
  }

  /** The number of derived symbols among the first `i` entries. */
  function DerivedCount(tbl: Table, i: nat): (r: nat)
    requires i <= |tbl|
    ensures r <= i
  {
    if i == 0 then 0 else DerivedCount(tbl, i - 1) + (if tbl[i - 1].Derived? then 1 else 0)
  }

  lemma {:induction false} DerivedCountMono(tbl: Table, i: nat, j: nat)
    requires i <= j <= |tbl|
    ensures DerivedCount(tbl, i) <= DerivedCount(tbl, j)
    ensures i < j && tbl[i].Derived? ==> DerivedCount(tbl, i) < DerivedCount(tbl, j)
    decreases j
  {
    if i < j {
      DerivedCountMono(tbl, i, j - 1);
      assert DerivedCount(tbl, j) >= DerivedCount(tbl, j - 1);
    }
  }

  /** The k-th derived symbol is named by the k-th temporary `t_` handed out
      from counter `next`; primitive symbols keep their names. */
  function Named(tbl: Table, next: nat): (r: Table)
    ensures |r| == |tbl|
    ensures forall i :: 0 <= i < |tbl| ==> r[i].Derived? == tbl[i].Derived?
    ensures forall i :: 0 <= i < |tbl| && tbl[i].Derived? ==> r[i].def == tbl[i].def
  {
    seq(|tbl|, i requires 0 <= i < |tbl| =>
      if tbl[i].Derived? then Derived(Temp("t_", next + DerivedCount(tbl, i)), tbl[i].def) else tbl[i])
  }

  /** Renaming changes names only, and gives distinct derived symbols
      distinct temporaries. */
  lemma {:induction false} NamedDistinct(tbl: Table, next: nat, i: nat, j: nat)
    requires i < j < |tbl| && tbl[i].Derived? && tbl[j].Derived?
    ensures Named(tbl, next)[i].name != Named(tbl, next)[j].name
  {
    DerivedCountMono(tbl, i, j);
  }

  /** The temporaries for the derived symbols among the first `i` entries,
      each declared and assigned its definition in terms of the names of the
      symbols it is defined from. */
  function TempDefs(tbl: Table, next: nat, i: nat): seq<Stmt>
    requires i <= |tbl| && WellFormed(tbl)
  {
    if i == 0 then []
    else
      TempDefs(tbl, next, i - 1)
      + (if tbl[i - 1].Derived?
         then LocalAssign(Temp("t_", next + DerivedCount(tbl, i - 1)), DiffExpr(tbl[i - 1].def, Named(tbl, next)))
         else [])
  }

  lemma {:induction false} TempDefsLength(tbl: Table, next: nat, i: nat)
    requires i <= |tbl| && WellFormed(tbl)
    ensures |TempDefs(tbl, next, i)| == 2 * DerivedCount(tbl, i)
  {
    if i > 0 {
      TempDefsLength(tbl, next, i - 1);
    }
  }

  /** Later entries only append. */
  lemma {:induction false} TempDefsPrefix(tbl: Table, next: nat, i: nat, i': nat, m: nat)
    requires i <= i' <= |tbl| && WellFormed(tbl) && m < |TempDefs(tbl, next, i)|
    ensures m < |TempDefs(tbl, next, i')| && TempDefs(tbl, next, i')[m] == TempDefs(tbl, next, i)[m]
    decreases i'
  {
    if i < i' {
      TempDefsPrefix(tbl, next, i, i' - 1, m);
    }
  }

  /** One declaration and one assignment per derived symbol, in table order:
      those of the k-th derived symbol are statements 2k and 2k+1 and are
      for the k-th temporary. */
  lemma {:induction false} TempDefsShape(tbl: Table, next: nat, i: nat, j: nat)
    requires i <= |tbl| && WellFormed(tbl) && j < i && tbl[j].Derived?
    ensures |TempDefs(tbl, next, i)| == 2 * DerivedCount(tbl, i)
    ensures var k := DerivedCount(tbl, j);
      && 2 * k + 1 < |TempDefs(tbl, next, i)|
      && TempDefs(tbl, next, i)[2 * k] == LocalDecl({Temp("t_", next + k)})
      && TempDefs(tbl, next, i)[2 * k + 1] == Assign(Var(Temp("t_", next + k)), DiffExpr(tbl[j].def, Named(tbl, next)))
  {
    TempDefsLength(tbl, next, i);
    TempDefsLength(tbl, next, j);
    TempDefsLength(tbl, next, j + 1);
    var k := DerivedCount(tbl, j);
    TempDefsPrefix(tbl, next, j + 1, i, 2 * k);
    TempDefsPrefix(tbl, next, j + 1, i, 2 * k + 1);
  }

  /** A definition only reads the names of the symbols below `bound`, so two
      tables that agree there give the same expression. */
  lemma {:induction false} DiffExprAgree(d: TermDiff, t1: Table, t2: Table, bound: nat)
    requires DiffIn(d, bound) && bound <= |t1| && bound <= |t2|
    requires forall k :: 0 <= k < bound ==> t1[k].name == t2[k].name
    ensures DiffExpr(d, t1) == DiffExpr(d, t2)
  {
  }

  /** The state-variable update for one reduced row: the variable of its
      leading column becomes the right-hand side over the leading entry. */
  function RowUpdate(row: Row, tbl: Table, dvars: seq<Name>): Stmt
    requires FirstNonzero(row, |dvars|).Some? && RowAt(row, |dvars|).Some? && RowIn(row, |tbl|)
  {
    var lhs := FirstNonzero(row, |dvars|).value;
    var rhs := RowAt(row, |dvars|).value;
    var diag := RowAt(row, lhs).value;
    RowAtIn(row, |dvars|, |tbl|);
    RowAtIn(row, lhs, |tbl|);
    Assign(Var(dvars[lhs]), Bin(Div, Ident(tbl[rhs].name), Ident(tbl[diag].name)))
  }

  /** What a reduction must deliver for the updates to be emitted: as many
      rows as state variables, each with a leading entry among the first n
      columns and an entry in the augmented column, and a table whose derived
      symbols are defined from earlier ones. */
  predicate Solvable(rows: seq<Row>, tbl: Table, n: nat) {
    && |rows| == n && WellFormed(tbl)
    && forall i :: 0 <= i < |rows| ==>
         FirstNonzero(rows[i], n).Some? && RowAt(rows[i], n).Some? && RowIn(rows[i], |tbl|)
  }

  /** Renaming keeps the shape a reduction delivered. */
  lemma {:induction false} NamedSolvable(rows: seq<Row>, tbl: Table, n: nat, next: nat)
    requires Solvable(rows, tbl, n)
    ensures Solvable(rows, Named(tbl, next), n)
  {
    var named := Named(tbl, next);
    forall i | 0 <= i < |named| && named[i].Derived?
      ensures DiffIn(named[i].def, i)
    {
      assert tbl[i].Derived?;
    }
  }

  function RowUpdates(rows: seq<Row>, tbl: Table, dvars: seq<Name>): (r: seq<Stmt>)
    requires Solvable(rows, tbl, |dvars|)
    ensures |r| == |rows|
  {
    seq(|rows|, i requires 0 <= i < |rows| && Solvable(rows, tbl, |dvars|) => RowUpdate(rows[i], tbl, dvars))
  }

  /** Exactly one assignment per row, to the variable of the row's first
      nonzero column, dividing the augmented entry by that column's entry. */
  lemma {:induction false} RowUpdatesMeaning(rows: seq<Row>, tbl: Table, dvars: seq<Name>, i: nat)
    requires Solvable(rows, tbl, |dvars|) && i < |rows|
    ensures exists lhs: nat ::
      && lhs < |dvars| && RowAt(rows[i], lhs).Some?
      && (forall c :: 0 <= c < lhs ==> RowAt(rows[i], c).None?)
      && RowUpdates(rows, tbl, dvars)[i]
         == Assign(Var(dvars[lhs]), Bin(Div, Ident(tbl[RowAt(rows[i], |dvars|).value].name),
                                            Ident(tbl[RowAt(rows[i], lhs).value].name)))
  {
    var lhs := FirstNonzero(rows[i], |dvars|).value;
    assert RowUpdates(rows, tbl, dvars)[i] == RowUpdate(rows[i], tbl, dvars);
  }

  /** Running a row's update divides the value of the right-hand side's name
      by that of the leading entry's name, and changes nothing else. */
  lemma {:induction false} RowUpdateRun(row: Row, tbl: Table, dvars: seq<Name>, env: Env, call: CallFn, v: real)
    requires FirstNonzero(row, |dvars|).Some? && RowAt(row, |dvars|).Some? && RowIn(row, |tbl|)
    requires var lhs := FirstNonzero(row, |dvars|).value;
      var rhs := tbl[RowAt(row, |dvars|).value].name;
      var diag := tbl[RowAt(row, lhs).value].name;
      rhs in env && diag in env && env[diag] != 0.0 && v == env[rhs] / env[diag]
    ensures Exec([RowUpdate(row, tbl, dvars)], env, call)
            == Some(env[dvars[FirstNonzero(row, |dvars|).value] := v])
  {
    var lhs := FirstNonzero(row, |dvars|).value;
    var rhs := tbl[RowAt(row, |dvars|).value].name;
    var diag := tbl[RowAt(row, lhs).value].name;
    EvalDiv(Ident(rhs), Ident(diag), env, call, env[rhs], env[diag], v);
    ExecAssign(dvars[lhs], Bin(Div, Ident(rhs), Ident(diag)), env, call, v);
  }

  /** finalize after the reduction: the temporaries for the derived symbols
      in table order, then one update per row. Returns the statements, the
      renamed table and the next unused temporary counter. */
  method EmitSolution(rows: seq<Row>, tbl: Table, dvars: seq<Name>, next: nat)
    returns (stmts: seq<Stmt>, named: Table, next': nat)
    requires Solvable(rows, tbl, |dvars|)
    ensures named == Named(tbl, next)
    ensures next' == next + DerivedCount(tbl, |tbl|)
    ensures stmts == TempDefs(tbl, next, |tbl|) + RowUpdates(rows, named, dvars)
  {
    stmts, named, next' := [], tbl, next;
    for i := 0 to |tbl|
      invariant |named| == |tbl|
      invariant forall k :: 0 <= k < i ==> named[k] == Named(tbl, next)[k]
      invariant forall k :: i <= k < |tbl| ==> named[k] == tbl[k]
      invariant next' == next + DerivedCount(tbl, i)
      invariant stmts == TempDefs(tbl, next, i)
    {
      if tbl[i].Derived? {
        var def := tbl[i].def;
        DiffExprAgree(def, named, Named(tbl, next), i);
        var t := Temp("t_", next');
        stmts := stmts + LocalAssign(t, DiffExpr(def, named));
        named := named[i := Derived(t, def)];
        next' := next' + 1;
      }
    }
    assert named == Named(tbl, next);
    NamedSolvable(rows, tbl, |dvars|, next);
    ghost var temps := stmts;
    for i := 0 to |rows|
      invariant stmts == temps + RowUpdates(rows, named, dvars)[..i]
    {
      var lhs := LeadColumn(rows[i], |dvars|);
      var rhs := RowAt(rows[i], |dvars|).value;
      var diag := RowAt(rows[i], lhs).value;
      stmts := stmts + [Assign(Var(dvars[lhs]), Bin(Div, Ident(named[rhs].name), Ident(named[diag].name)))];
      assert RowUpdates(rows, named, dvars)[..i + 1] == RowUpdates(rows, named, dvars)[..i] + [RowUpdate(rows[i], named, dvars)];
    }
    assert RowUpdates(rows, named, dvars)[..|rows|] == RowUpdates(rows, named, dvars);
  }

  /** The scan for a row's leading column, stopping at the first entry. */
  method LeadColumn(row: Row, n: nat) returns (lhs: nat)
    requires FirstNonzero(row, n).Some?
    ensures lhs == FirstNonzero(row, n).value
  {
    var r := 0;
    while r < n
      invariant r <= n
      invariant FirstNonzeroFrom(row, r, n) == FirstNonzero(row, n)
      decreases n - r
    {
      if RowAt(row, r).Some? {
        return r;
      }
      r := r + 1;
    }
    assert false;
  }
}
