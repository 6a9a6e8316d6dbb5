/** The two visitors of remove_unused_locals as objects over the Usage and
    RemoveVariables specifications, and the closure that decides which
    declared locals are dead. */
module DeadLocals {
  import opened Wrappers
  import opened Ast
  import opened DeadLocalsSpec

  /** No edge out of `y` leads to a name still in `unused`. */
  ghost predicate Closed(deps: seq<(Name, Name)>, y: Name, unused: set<Name>) {
    forall k :: 0 <= k < |deps| && deps[k].0 == y ==> deps[k].1 !in unused
  }

  lemma ClosedShrinks(deps: seq<(Name, Name)>, y: Name, before: set<Name>, after: set<Name>)
    requires Closed(deps, y, before) && after <= before
    ensures Closed(deps, y, after)
  {
  }

  /** Once the used names and every released local are closed, nothing on a
      dependency path is left unused. */
  lemma {:induction false} PathCovered(u: Usage, unused: set<Name>, p: seq<Name>)
    requires Path(u, p)
    requires forall y :: y in u.used ==> y !in unused && Closed(u.deps, y, unused)
    requires forall y :: y in u.declared - unused ==> Closed(u.deps, y, unused)
    ensures p[|p| - 1] !in unused && Closed(u.deps, p[|p| - 1], unused)
    decreases |p|
  {
    if |p| > 1 {
      var q := p[..|p| - 1];
      assert forall i :: 0 <= i < |q| ==> q[i] == p[i];
      assert Path(u, q);
      PathCovered(u, unused, q);
      var a, x := p[|p| - 2], p[|p| - 1];
      assert (a, x) in u.deps;
      var k :| 0 <= k < |u.deps| && u.deps[k] == (a, x);
      assert x in u.declared;
    }
  }

  /** Releasing every dependency target of `y` closes `y`. */
  lemma TargetsClosed(deps: seq<(Name, Name)>, y: Name, unused: set<Name>)
    requires forall m :: 0 <= m < |Edges(deps, y)| ==> Edges(deps, y)[m] !in unused
    ensures Closed(deps, y, unused)
  {
    var targets := Edges(deps, y);
    forall j | 0 <= j < |deps| && deps[j].0 == y ensures deps[j].1 !in unused {
      assert (y, deps[j].1) == deps[j];
      var m :| 0 <= m < |targets| && targets[m] == deps[j].1;
    }
  }

  lemma SubsetCard(a: set<Name>, b: set<Name>)
    requires a <= b
    ensures |a| <= |b|
  {
    if a != {} {
      var x :| x in a;
      SubsetCard(a - {x}, b - {x});
    }
  }

  /** UnusedVisitor: the dependency multimap, the used and unused sets, the
      left-hand side of the assignment being visited, and the cache flag of
      unused_locals. `locals` says which names resolve to local variables. */
  class UnusedVisitor {
    var deps: seq<(Name, Name)>
    var usedIds: set<Name>
    var unusedIds: set<Name>
    var lhsSym: Option<Name>
    var computed: bool
    const locals: set<Name>

    function State(): Usage
      reads this
    {
      Usage(deps, usedIds, unusedIds)
    }

    constructor (locals: set<Name>)
      ensures State() == NoUsage && lhsSym == None && !computed && this.locals == locals
    {
      deps, usedIds, unusedIds, lhsSym, computed := [], {}, {}, None, false;
      this.locals := locals;
    }

    /** An identifier: an edge from a local left-hand side, a use otherwise. */
    method VisitIdent(x: Name)
      modifies this
      ensures State() == ReadsUsage(old(State()), lhsSym, [x], locals)
      ensures lhsSym == old(lhsSym) && computed == old(computed)
    {
      if lhsSym.Some? && lhsSym.value in locals {
        deps := deps + [(lhsSym.value, x)];
      } else {
        usedIds := usedIds + {x};
      }
      assert (set y | y in [x]) == {x};
    }

    method VisitExpr(e: Expr)
      modifies this
      ensures State() == ReadsUsage(old(State()), lhsSym, Reads(e), locals)
      ensures lhsSym == old(lhsSym) && computed == old(computed)
      decreases e
    {
      match e
      case Ident(x) => VisitIdent(x);
      case Num(_) => ReadsUsageNil(State(), lhsSym, Reads(e), locals);
      case IntLit(_) => ReadsUsageNil(State(), lhsSym, Reads(e), locals);
      case Neg(a) => VisitExpr(a);
      case Bin(_, l, r) =>
        VisitExpr(l);
        VisitExpr(r);
        ReadsUsageAppend(old(State()), lhsSym, Reads(l), Reads(r), locals);
      case Call(_, args) => VisitArgs(args);
    }

    method VisitArgs(args: seq<Expr>)
      modifies this
      ensures State() == ReadsUsage(old(State()), lhsSym, ReadsArgs(args), locals)
      ensures lhsSym == old(lhsSym) && computed == old(computed)
      decreases args
    {
      ReadsUsageNil(State(), lhsSym, ReadsArgs(args[..0]), locals);
      for i := 0 to |args|
        invariant State() == ReadsUsage(old(State()), lhsSym, ReadsArgs(args[..i]), locals)
        invariant lhsSym == old(lhsSym) && computed == old(computed)
      {
        VisitExpr(args[i]);
        ReadsUsageAppend(old(State()), lhsSym, ReadsArgs(args[..i]), Reads(args[i]), locals);
        assert args[..i + 1] == args[..i] + [args[i]];
        ReadsArgsAppend(args[..i], [args[i]]);
        assert ReadsArgs([args[i]]) == Reads(args[i]) + ReadsArgs([]);
      }
      assert args[..|args|] == args;
    }

    /** One statement; the left-hand side is set only while the right-hand
        side of an assignment is visited. */
    method VisitStatement(s: Stmt)
      requires lhsSym == None
      modifies this
      ensures State() == StmtUsage(old(State()), s, locals)
      ensures lhsSym == None && computed == old(computed)
      decreases s
    {
      match s
      case Assign(lhs, rhs) =>
        lhsSym := Some(lhs.Id());
        VisitExpr(rhs);
        lhsSym := None;
      case LocalDecl(vars) =>
        unusedIds := unusedIds + vars;
      case CallStmt(_, args) =>
        VisitArgs(args);
      case If(c, t, f) =>
        VisitExpr(c);
        VisitBlock(t);
        VisitBlock(f);
      case Compartment(_, _) =>
      case Conserve(_, _) =>
      case Linear(_, _) =>
    }

    method VisitBlock(b: seq<Stmt>)
      requires lhsSym == None
      modifies this
      ensures State() == BlockUsage(old(State()), b, locals)
      ensures lhsSym == None && computed == old(computed)
      decreases b
    {
      for i := 0 to |b|
        invariant State() == BlockUsage(old(State()), b[..i], locals)
        invariant lhsSym == None && computed == old(computed)
      {
        assert b[..i + 1][..i] == b[..i];
        VisitStatement(b[i]);
      }
      assert b[..|b|] == b;
    }

    /** remove_deps_from_unused with `id` erased before its dependencies are
        released, so that a dependency cycle ends the recursion. `u0` is the
        usage the closure started from. */
    method RemoveDeps(id: Name, ghost u0: Usage)
      requires u0.deps == deps && u0.used == usedIds && unusedIds <= u0.declared
      requires Reachable(u0, id)
      requires forall y :: y in u0.declared - unusedIds ==> Reachable(u0, y)
      modifies this
      ensures deps == old(deps) && usedIds == old(usedIds) && lhsSym == old(lhsSym) && computed == old(computed)
      ensures unusedIds <= old(unusedIds) && id !in unusedIds
      ensures forall y :: y in u0.declared - unusedIds ==> Reachable(u0, y)
      ensures Closed(deps, id, unusedIds)
      ensures forall y :: y in old(unusedIds) - unusedIds ==> Closed(deps, y, unusedIds)
      decreases |unusedIds| + (if id in unusedIds then 0 else 1)
    {
      unusedIds := unusedIds - {id};
      ghost var start := unusedIds;
      var targets := Edges(deps, id);
      for k := 0 to |targets|
        invariant deps == old(deps) && usedIds == old(usedIds) && lhsSym == old(lhsSym) && computed == old(computed)
        invariant unusedIds <= start
        invariant forall y :: y in u0.declared - unusedIds ==> Reachable(u0, y)
        invariant forall m :: 0 <= m < k ==> targets[m] !in unusedIds
        invariant forall y :: y in start - unusedIds ==> Closed(deps, y, unusedIds)
      {
        var d := targets[k];
        if d in unusedIds {
          ReachStep(u0, id, d);
          SubsetCard(unusedIds, start);
          ghost var before := unusedIds;
          RemoveDeps(d, u0);
          forall y | y in start - unusedIds ensures Closed(deps, y, unusedIds) {
            if y in start - before {
              ClosedShrinks(deps, y, before, unusedIds);
            }
          }
        }
      }
      TargetsClosed(deps, id, unusedIds);
    }

    /** unused_locals: on the first call, release everything reachable from
        a used name; the declared locals that remain are exactly the dead
        ones. Later calls return the cached set. */
    method UnusedLocals() returns (r: set<Name>)
      modifies this
      ensures deps == old(deps) && usedIds == old(usedIds) && computed && r == unusedIds
      ensures !old(computed) ==> r == DeadSet(old(State()))
      ensures old(computed) ==> r == old(unusedIds)
    {
      if !computed {
        ghost var u0 := State();
        var todo := usedIds;
        while todo != {}
          invariant deps == u0.deps && usedIds == u0.used
          invariant todo <= usedIds && unusedIds <= u0.declared
          invariant forall y :: y in u0.declared - unusedIds ==> Reachable(u0, y)
          invariant forall y :: y in u0.declared - unusedIds ==> Closed(deps, y, unusedIds)
          invariant forall y :: y in usedIds - todo ==> y !in unusedIds && Closed(deps, y, unusedIds)
          decreases |todo|
        {
          var id :| id in todo;
          assert Path(u0, [id]);
          ghost var before := unusedIds;
          RemoveDeps(id, u0);
          forall y | y in u0.declared - unusedIds ensures Closed(deps, y, unusedIds) {
            if y in u0.declared - before {
              ClosedShrinks(deps, y, before, unusedIds);
            }
          }
          forall y | y in usedIds - (todo - {id}) ensures y !in unusedIds && Closed(deps, y, unusedIds) {
            if y != id {
              ClosedShrinks(deps, y, before, unusedIds);
            }
          }
          todo := todo - {id};
        }
        forall x | x in u0.declared ensures x in unusedIds <==> !Reachable(u0, x) {
          if x in unusedIds && Reachable(u0, x) {
            var p :| Path(u0, p) && p[|p| - 1] == x;
            PathCovered(u0, unusedIds, p);
          }
        }
        computed := true;
      }
      r := unusedIds;
    }

    /** reset: back to the state of a fresh visitor with the same locals. */
    method Reset()
      modifies this
      ensures State() == NoUsage && !computed && lhsSym == old(lhsSym)
    {
      deps, usedIds, unusedIds, computed := [], {}, {}, false;
    }
  }

  /** RemoveVariableVisitor: the rewritten statement list and the names to
      remove. */
  class RemoveVariableVisitor {
    var statements: seq<Stmt>
    const remove: set<Name>

    constructor (remove: set<Name>)
      ensures statements == [] && this.remove == remove
    {
      statements := [];
      this.remove := remove;
    }

    /** A declaration loses the removed names and is dropped once empty. */
    method VisitLocalDecl(vars: set<Name>)
      modifies this
      ensures statements == old(statements) + RemoveStmt(LocalDecl(vars), remove)
    {
      var kept := vars - remove;
      if kept != {} {
        statements := statements + [LocalDecl(kept)];
      }
    }

    /** An assignment to a removed name is dropped. */
    method VisitAssignment(lhs: LValue, rhs: Expr)
      modifies this
      ensures statements == old(statements) + RemoveStmt(Assign(lhs, rhs), remove)
    {
      if lhs.Id() !in remove {
        statements := statements + [Assign(lhs, rhs)];
      }
    }

    method VisitStatement(s: Stmt)
      modifies this
      ensures statements == old(statements) + RemoveStmt(s, remove)
    {
      match s
      case LocalDecl(vars) => VisitLocalDecl(vars);
      case Assign(lhs, rhs) => VisitAssignment(lhs, rhs);
      case _ => statements := statements + [s];
    }

    method VisitBlock(b: seq<Stmt>)
      modifies this
      ensures statements == old(statements) + RemoveVariables(b, remove)
    {
      for i := 0 to |b|
        invariant statements == old(statements) + RemoveVariables(b[..i], remove)
      {
        assert b[..i + 1][..i] == b[..i];
        VisitStatement(b[i]);
      }
      assert b[..|b|] == b;
    }
  }

  /** remove_unused_locals: the block without the declared locals that no
      used name depends on. */
  method RemoveUnusedLocals(block: seq<Stmt>, locals: set<Name>) returns (out: seq<Stmt>)
    ensures out == RemoveVariables(block, DeadSet(BlockUsage(NoUsage, block, locals)))
  {
    var unused := new UnusedVisitor(locals);
    unused.VisitBlock(block);
    var dead := unused.UnusedLocals();
    var remover := new RemoveVariableVisitor(dead);
    remover.VisitBlock(block);
    out := remover.statements;
  }
}
