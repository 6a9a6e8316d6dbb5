/** remove_unused_locals: which local variables a block never needs, and the
    block with them removed. The first pass (UnusedVisitor) records, for
    every identifier read inside the right-hand side of an assignment to a
    local, a dependency edge from that local to the identifier, and marks
    every other identifier read as used; the declared locals start out as
    unused. A closure from the used names then keeps every local they reach.
    The second pass (RemoveVariableVisitor) strips the dead names. */
module DeadLocalsSpec {
  import opened Wrappers
  import opened Ast
  import opened Semantics

  /** The identifiers of an expression in the order the visitor meets them. */
  function Reads(e: Expr): seq<Name> {
    match e
    case Ident(x) => [x]
    case Num(_) => []
    case IntLit(_) => []
    case Neg(a) => Reads(a)
    case Bin(_, l, r) => Reads(l) + Reads(r)
    case Call(_, args) => ReadsArgs(args)
  }

  function ReadsArgs(args: seq<Expr>): seq<Name> {
    if args == [] then [] else Reads(args[0]) + ReadsArgs(args[1..])
  }

  /** The visitor meets exactly the identifiers the expression involves. */
  lemma {:induction false} ReadsFreeVars(e: Expr)
    ensures forall x :: x in Reads(e) <==> x in FreeVars(e)
  {
    match e
    case Ident(_) =>
    case Num(_) =>
    case IntLit(_) =>
    case Neg(a) => ReadsFreeVars(a);
    case Bin(_, l, r) => ReadsFreeVars(l); ReadsFreeVars(r);
    case Call(_, args) => ReadsArgsFreeVars(args);
  }

  lemma {:induction false} ReadsArgsFreeVars(args: seq<Expr>)
    ensures forall x :: x in ReadsArgs(args) <==> x in ArgsFreeVars(args)
  {
    if args != [] {
      ReadsFreeVars(args[0]);
      ReadsArgsFreeVars(args[1..]);
    }
  }

  lemma {:induction false} ReadsArgsAppend(a: seq<Expr>, b: seq<Expr>)
    ensures ReadsArgs(a + b) == ReadsArgs(a) + ReadsArgs(b)
  {
    if a == [] {
      assert a + b == b;
    } else {
      assert (a + b)[1..] == a[1..] + b;
      ReadsArgsAppend(a[1..], b);
    }
  }

  /** What the first pass has gathered: the dependency edges in insertion
      order (a multimap in the source), the used names, and the declared
      locals, all of which start out unused. */
  datatype Usage = Usage(deps: seq<(Name, Name)>, used: set<Name>, declared: set<Name>)

  const NoUsage: Usage := Usage([], {}, {})

  /** The names `xs` read while the assignment target is `target`: edges
      from the target when it is a local variable, uses otherwise. */
  function ReadsUsage(u: Usage, target: Option<Name>, xs: seq<Name>, locals: set<Name>): Usage {
    if target.Some? && target.value in locals
    then u.(deps := u.deps + seq(|xs|, k requires 0 <= k < |xs| => (target.value, xs[k])))
    else u.(used := u.used + set x | x in xs)
  }

  /** Reading `xs` then `ys` records the same as reading `xs + ys`. */
  lemma ReadsUsageAppend(u: Usage, target: Option<Name>, xs: seq<Name>, ys: seq<Name>, locals: set<Name>)
    ensures ReadsUsage(ReadsUsage(u, target, xs, locals), target, ys, locals) == ReadsUsage(u, target, xs + ys, locals)
  {
    if target.Some? && target.value in locals {
      var t := target.value;
      assert seq(|xs|, k requires 0 <= k < |xs| => (t, xs[k])) + seq(|ys|, k requires 0 <= k < |ys| => (t, ys[k]))
          == seq(|xs + ys|, k requires 0 <= k < |xs + ys| => (t, (xs + ys)[k]));
    } else {
      assert (set x | x in xs) + (set x | x in ys) == set x | x in xs + ys;
    }
  }

  lemma ReadsUsageNil(u: Usage, target: Option<Name>, xs: seq<Name>, locals: set<Name>)
    requires xs == []
    ensures ReadsUsage(u, target, xs, locals) == u
  {
  }

  /** The first pass over one statement. An assignment's left-hand side is
      not itself a read; a declaration adds its names to the unused set;
      a call's arguments and an IF condition are uses; the branches of an
      IF are visited in turn; any other statement records nothing. */
  function StmtUsage(u: Usage, s: Stmt, locals: set<Name>): Usage
    decreases s
  {
    match s
    case Assign(lhs, rhs) => ReadsUsage(u, Some(lhs.Id()), Reads(rhs), locals)
    case LocalDecl(vars) => u.(declared := u.declared + vars)
    case CallStmt(_, args) => ReadsUsage(u, None, ReadsArgs(args), locals)
    case If(c, t, f) => BlockUsage(BlockUsage(ReadsUsage(u, None, Reads(c), locals), t, locals), f, locals)
    case _ => u
  }

  function BlockUsage(u: Usage, b: seq<Stmt>, locals: set<Name>): Usage
    decreases b
  {
    if b == [] then u else StmtUsage(BlockUsage(u, b[..|b| - 1], locals), b[|b| - 1], locals)
  }

  /** s' is s or a statement inside one of its branches, at any depth. */
  predicate WithinStmt(s': Stmt, s: Stmt)
    decreases s
  {
    s' == s || (s.If? && (Within(s', s.thenBranch) || Within(s', s.elseBranch)))
  }

  predicate Within(s': Stmt, b: seq<Stmt>)
    decreases b
  {
    exists i :: 0 <= i < |b| && WithinStmt(s', b[i])
  }

  lemma WithinSnoc(s': Stmt, b: seq<Stmt>)
    requires b != []
    ensures Within(s', b) <==> Within(s', b[..|b| - 1]) || WithinStmt(s', b[|b| - 1])
  {
    if Within(s', b) {
      var i :| 0 <= i < |b| && WithinStmt(s', b[i]);
      if i < |b| - 1 {
        assert b[..|b| - 1][i] == b[i];
      }
    }
    if Within(s', b[..|b| - 1]) {
      var i :| 0 <= i < |b| - 1 && WithinStmt(s', b[..|b| - 1][i]);
      assert b[i] == b[..|b| - 1][i];
    }
  }

  /** An assignment to local `a` that reads `x`. */
  predicate ReadsInto(s: Stmt, a: Name, x: Name, locals: set<Name>) {
    s.Assign? && s.lhs.Id() == a && a in locals && x in FreeVars(s.rhs)
  }

  /** A read of `x` anywhere but the right-hand side of an assignment to a
      local: another assignment, a call argument, an IF condition. */
  predicate ReadsOutside(s: Stmt, x: Name, locals: set<Name>) {
    || (s.Assign? && s.lhs.Id() !in locals && x in FreeVars(s.rhs))
    || (s.CallStmt? && x in ArgsFreeVars(s.args))
    || (s.If? && x in FreeVars(s.cond))
  }

  predicate Declares(s: Stmt, x: Name) {
    s.LocalDecl? && x in s.vars
  }

  /** The edges of the first pass are exactly the reads into locals, at any
      depth of the block. */
  lemma {:induction false} StmtDeps(u: Usage, s: Stmt, locals: set<Name>)
    ensures forall a, x :: (a, x) in StmtUsage(u, s, locals).deps <==>
      (a, x) in u.deps || exists s' :: WithinStmt(s', s) && ReadsInto(s', a, x, locals)
    decreases s
  {
    match s
    case Assign(lhs, rhs) =>
      ReadsFreeVars(rhs);
      forall a, x ensures (a, x) in StmtUsage(u, s, locals).deps <==>
        (a, x) in u.deps || exists s' :: WithinStmt(s', s) && ReadsInto(s', a, x, locals)
      {
        if (a, x) in StmtUsage(u, s, locals).deps && (a, x) !in u.deps {
          assert WithinStmt(s, s) && ReadsInto(s, a, x, locals);
        }
        if (a, x) !in u.deps && exists s' :: WithinStmt(s', s) && ReadsInto(s', a, x, locals) {
          var s' :| WithinStmt(s', s) && ReadsInto(s', a, x, locals);
          var xs := Reads(rhs);
          var k :| 0 <= k < |xs| && xs[k] == x;
          var out := StmtUsage(u, s, locals).deps;
          assert out[|u.deps| + k] == (a, x);
        }
      }
    case LocalDecl(_) =>
    case CallStmt(_, _) =>
    case If(c, t, f) =>
      var u1 := ReadsUsage(u, None, Reads(c), locals);
      BlockDeps(u1, t, locals);
      BlockDeps(BlockUsage(u1, t, locals), f, locals);
    case Compartment(_, _) =>
    case Conserve(_, _) =>
    case Linear(_, _) =>
  }

  lemma {:induction false} BlockDeps(u: Usage, b: seq<Stmt>, locals: set<Name>)
    ensures forall a, x :: (a, x) in BlockUsage(u, b, locals).deps <==>
      (a, x) in u.deps || exists s' :: Within(s', b) && ReadsInto(s', a, x, locals)
    decreases b
  {
    if b != [] {
      BlockDeps(u, b[..|b| - 1], locals);
      StmtDeps(BlockUsage(u, b[..|b| - 1], locals), b[|b| - 1], locals);
      forall s' ensures Within(s', b) <==> Within(s', b[..|b| - 1]) || WithinStmt(s', b[|b| - 1]) {
        WithinSnoc(s', b);
      }
    }
  }

  /** The used names of the first pass are exactly the names read outside
      the right-hand sides of assignments to locals, at any depth. */
  lemma {:induction false} StmtUsed(u: Usage, s: Stmt, locals: set<Name>)
    ensures forall x :: x in StmtUsage(u, s, locals).used <==>
      x in u.used || exists s' :: WithinStmt(s', s) && ReadsOutside(s', x, locals)
    decreases s
  {
    match s
    case Assign(lhs, rhs) =>
      ReadsFreeVars(rhs);
      forall x | x in StmtUsage(u, s, locals).used && x !in u.used
        ensures exists s' :: WithinStmt(s', s) && ReadsOutside(s', x, locals)
      {
        assert WithinStmt(s, s) && ReadsOutside(s, x, locals);
      }
    case LocalDecl(_) =>
    case CallStmt(_, args) =>
      ReadsArgsFreeVars(args);
      forall x | x in StmtUsage(u, s, locals).used && x !in u.used
        ensures exists s' :: WithinStmt(s', s) && ReadsOutside(s', x, locals)
      {
        assert WithinStmt(s, s) && ReadsOutside(s, x, locals);
      }
    case If(c, t, f) =>
      ReadsFreeVars(c);
      var u1 := ReadsUsage(u, None, Reads(c), locals);
      BlockUsed(u1, t, locals);
      BlockUsed(BlockUsage(u1, t, locals), f, locals);
      forall x | x in StmtUsage(u, s, locals).used && x !in u.used && x in FreeVars(c)
        ensures exists s' :: WithinStmt(s', s) && ReadsOutside(s', x, locals)
      {
        assert WithinStmt(s, s) && ReadsOutside(s, x, locals);
      }
    case Compartment(_, _) =>
    case Conserve(_, _) =>
    case Linear(_, _) =>
  }

  lemma {:induction false} BlockUsed(u: Usage, b: seq<Stmt>, locals: set<Name>)
    ensures forall x :: x in BlockUsage(u, b, locals).used <==>
      x in u.used || exists s' :: Within(s', b) && ReadsOutside(s', x, locals)
    decreases b
  {
    if b != [] {
      BlockUsed(u, b[..|b| - 1], locals);
      StmtUsed(BlockUsage(u, b[..|b| - 1], locals), b[|b| - 1], locals);
      forall s' ensures Within(s', b) <==> Within(s', b[..|b| - 1]) || WithinStmt(s', b[|b| - 1]) {
        WithinSnoc(s', b);
      }
    }
  }

  /** The unused set starts as exactly the names declared at any depth. */
  lemma {:induction false} StmtDeclared(u: Usage, s: Stmt, locals: set<Name>)
    ensures forall x :: x in StmtUsage(u, s, locals).declared <==>
      x in u.declared || exists s' :: WithinStmt(s', s) && Declares(s', x)
    decreases s
  {
    match s
    case Assign(_, _) =>
    case LocalDecl(vars) =>
      forall x | x in vars ensures exists s' :: WithinStmt(s', s) && Declares(s', x) {
        assert WithinStmt(s, s) && Declares(s, x);
      }
    case CallStmt(_, _) =>
    case If(c, t, f) =>
      var u1 := ReadsUsage(u, None, Reads(c), locals);
      BlockDeclared(u1, t, locals);
      BlockDeclared(BlockUsage(u1, t, locals), f, locals);
    case Compartment(_, _) =>
    case Conserve(_, _) =>
    case Linear(_, _) =>
  }

  lemma {:induction false} BlockDeclared(u: Usage, b: seq<Stmt>, locals: set<Name>)
    ensures forall x :: x in BlockUsage(u, b, locals).declared <==>
      x in u.declared || exists s' :: Within(s', b) && Declares(s', x)
    decreases b
  {
    if b != [] {
      BlockDeclared(u, b[..|b| - 1], locals);
      StmtDeclared(BlockUsage(u, b[..|b| - 1], locals), b[|b| - 1], locals);
      forall s' ensures Within(s', b) <==> Within(s', b[..|b| - 1]) || WithinStmt(s', b[|b| - 1]) {
        WithinSnoc(s', b);
      }
    }
  }

  /** A chain of dependencies from a used name through declared locals. */
  ghost predicate Path(u: Usage, p: seq<Name>) {
    && |p| >= 1 && p[0] in u.used
    && (forall i :: 0 <= i < |p| - 1 ==> (p[i], p[i + 1]) in u.deps)
    && (forall i :: 1 <= i < |p| ==> p[i] in u.declared)
  }

  ghost predicate Reachable(u: Usage, x: Name) {
    exists p :: Path(u, p) && p[|p| - 1] == x
  }

  /** The locals the closure leaves unused: declared and not reachable. */
  ghost function DeadSet(u: Usage): set<Name> {
    set x | x in u.declared && !Reachable(u, x)
  }

  lemma PathExtend(u: Usage, p: seq<Name>, x: Name)
    requires Path(u, p) && (p[|p| - 1], x) in u.deps && x in u.declared
    ensures Path(u, p + [x]) && (p + [x])[|p|] == x
  {
    var q := p + [x];
    forall i | 0 <= i < |q| - 1 ensures (q[i], q[i + 1]) in u.deps {
      if i < |p| - 1 {
        assert q[i] == p[i] && q[i + 1] == p[i + 1];
      }
    }
  }

  /** A declared local read by a reachable local is reachable. */
  lemma ReachStep(u: Usage, a: Name, x: Name)
    requires Reachable(u, a) && (a, x) in u.deps && x in u.declared
    ensures Reachable(u, x)
  {
    var p :| Path(u, p) && p[|p| - 1] == a;
    PathExtend(u, p, x);
  }

  /** Safety of the removal: a dead local is read by no statement outside
      the assignments to locals, and by no assignment to a live declared
      local. */
  lemma DeadIsUnread(b: seq<Stmt>, locals: set<Name>, x: Name)
    requires x in DeadSet(BlockUsage(NoUsage, b, locals))
    ensures forall s :: Within(s, b) ==> !ReadsOutside(s, x, locals)
    ensures forall s, a ::
      (Within(s, b) && ReadsInto(s, a, x, locals) && a in BlockUsage(NoUsage, b, locals).declared) ==>
        a in DeadSet(BlockUsage(NoUsage, b, locals))
  {
    var u := BlockUsage(NoUsage, b, locals);
    BlockUsed(NoUsage, b, locals);
    BlockDeps(NoUsage, b, locals);
    forall s | Within(s, b) ensures !ReadsOutside(s, x, locals) {
      if ReadsOutside(s, x, locals) {
        assert x in u.used;
        assert Path(u, [x]);
        assert false;
      }
    }
    forall s, a | Within(s, b) && ReadsInto(s, a, x, locals) && a in u.declared
      ensures a in DeadSet(u)
    {
      if a !in DeadSet(u) {
        var p :| Path(u, p) && p[|p| - 1] == a;
        assert (a, x) in u.deps;
        PathExtend(u, p, x);
        assert false;
      }
    }
  }

  /** The dependency targets of `id` in insertion order (equal_range). */
  function Edges(deps: seq<(Name, Name)>, id: Name): (r: seq<Name>)
    ensures forall d :: d in r <==> (id, d) in deps
  {
    if deps == [] then []
    else
      var last := deps[|deps| - 1];
      assert deps == deps[..|deps| - 1] + [last];
      Edges(deps[..|deps| - 1], id) + (if last.0 == id then [last.1] else [])
  }

  /** remove_deps_from_unused as written: the targets of `id` still unused
      are released first, recursively, and `id` is erased only afterwards.
      The recursion is bounded by `fuel`; None means the bound ran out. */
  function ReleaseAsWritten(deps: seq<(Name, Name)>, unused: set<Name>, id: Name, fuel: nat): Option<set<Name>>
    decreases fuel, 0
  {
    if fuel == 0 then None
    else
      match ReleaseLoopAsWritten(deps, unused, Edges(deps, id), fuel - 1)
      case None => None
      case Some(u) => Some(u - {id})
  }

  function ReleaseLoopAsWritten(deps: seq<(Name, Name)>, unused: set<Name>, ds: seq<Name>, fuel: nat): Option<set<Name>>
    decreases fuel, |ds|
  {
    if ds == [] then Some(unused)
    else if ds[0] in unused then
      match ReleaseAsWritten(deps, unused, ds[0], fuel)
      case None => None
      case Some(u) => ReleaseLoopAsWritten(deps, u, ds[1..], fuel)
    else ReleaseLoopAsWritten(deps, unused, ds[1..], fuel)
  }

  const A: Name := User("a")
  const S: Name := User("s")

  /** LOCAL a; a = 2; a = a*3; s = a — a local updated from itself. */
  const SelfUpdate: seq<Stmt> := [
    LocalDecl({A}),
    Assign(Var(A), Num(2.0)),
    Assign(Var(A), Bin(Mul, Ident(A), Num(3.0))),
    Assign(Var(S), Ident(A))
  ]

  /** The first pass over that block: one self edge, `a` used, `a` declared. */
  lemma SelfUpdateUsage()
    ensures BlockUsage(NoUsage, SelfUpdate, {A}) == Usage([(A, A)], {A}, {A})
  {
    var L := {A};
    var b := SelfUpdate;
    assert b[..1][..0] == [] && b[..2][..1] == b[..1] && b[..3][..2] == b[..2] && b[..4][..3] == b[..3];
    assert b[..4] == b;
    var u1 := BlockUsage(NoUsage, b[..1], L);
    assert b[..1][0] == LocalDecl({A}) && BlockUsage(NoUsage, b[..1][..0], L) == NoUsage;
    assert u1 == StmtUsage(NoUsage, LocalDecl({A}), L);
    assert u1 == Usage([], {}, {A});
    var u2 := BlockUsage(NoUsage, b[..2], L);
    assert u2 == StmtUsage(u1, Assign(Var(A), Num(2.0)), L);
    assert |u2.deps| == 0;
    assert u2 == u1;
    var u3 := BlockUsage(NoUsage, b[..3], L);
    assert u3 == StmtUsage(u2, Assign(Var(A), Bin(Mul, Ident(A), Num(3.0))), L);
    assert Reads(Bin(Mul, Ident(A), Num(3.0))) == [A];
    assert seq(1, k requires 0 <= k < 1 => (A, [A][k])) == [(A, A)];
    assert u3 == Usage([(A, A)], {}, {A});
    assert BlockUsage(NoUsage, b, L) == StmtUsage(u3, Assign(Var(S), Ident(A)), L);
    assert (set x | x in [A]) == {A};
  }

  /** With that edge the closure as written never finishes, whatever bound
      is put on its recursion: releasing `a` finds `a` still unused and
      releases it again. */
  lemma {:induction false} SelfUpdateDiverges(fuel: nat)
    ensures ReleaseAsWritten([(A, A)], {A}, A, fuel).None?
  {
    if fuel > 0 {
      assert Edges([(A, A)], A) == [A] by {
        assert [(A, A)][..0] == [];
      }
      if fuel - 1 > 0 {
        SelfUpdateDiverges(fuel - 1);
      }
    }
  }

  /** RemoveVariableVisitor on one statement: a declaration keeps its live
      names and is dropped when none is left, an assignment to a dead name
      is dropped, anything else is kept. */
  function RemoveStmt(s: Stmt, dead: set<Name>): seq<Stmt> {
    match s
    case LocalDecl(vars) => if vars - dead == {} then [] else [LocalDecl(vars - dead)]
    case Assign(lhs, _) => if lhs.Id() in dead then [] else [s]
    case _ => [s]
  }

  function RemoveVariables(b: seq<Stmt>, dead: set<Name>): seq<Stmt> {
    if b == [] then [] else RemoveVariables(b[..|b| - 1], dead) + RemoveStmt(b[|b| - 1], dead)
  }

  /** The names the top-level declarations of a block introduce. */
  function DeclaredAt(b: seq<Stmt>): set<Name> {
    if b == [] then {}
    else DeclaredAt(b[..|b| - 1]) + (if b[|b| - 1].LocalDecl? then b[|b| - 1].vars else {})
  }

  /** A statement the removal keeps untouched. */
  predicate Untouched(s: Stmt) {
    !s.LocalDecl? && !s.Assign?
  }

  function UntouchedOf(b: seq<Stmt>): seq<Stmt> {
    if b == [] then [] else UntouchedOf(b[..|b| - 1]) + (if Untouched(b[|b| - 1]) then [b[|b| - 1]] else [])
  }

  /** After the removal no dead name is declared or assigned at the top
      level, no declaration is empty, the declared names are the old ones
      less the dead ones, and every other statement is kept in order. */
  lemma {:induction false} RemoveVariablesMeaning(b: seq<Stmt>, dead: set<Name>)
    ensures forall i :: 0 <= i < |RemoveVariables(b, dead)| && RemoveVariables(b, dead)[i].LocalDecl? ==>
      RemoveVariables(b, dead)[i].vars != {} && RemoveVariables(b, dead)[i].vars !! dead
    ensures forall i :: 0 <= i < |RemoveVariables(b, dead)| && RemoveVariables(b, dead)[i].Assign? ==>
      RemoveVariables(b, dead)[i].lhs.Id() !in dead
    ensures DeclaredAt(RemoveVariables(b, dead)) == DeclaredAt(b) - dead
    ensures UntouchedOf(RemoveVariables(b, dead)) == UntouchedOf(b)
  {
    RemovedClean(b, dead);
    RemovedDeclared(b, dead);
  }

  /** No statement left by the removal declares or assigns a removed name,
      and no declaration is left empty. */
  predicate CleanOf(s: Stmt, dead: set<Name>) {
    && (s.LocalDecl? ==> s.vars != {} && s.vars !! dead)
    && (s.Assign? ==> s.lhs.Id() !in dead)
  }

  lemma {:induction false} RemovedClean(b: seq<Stmt>, dead: set<Name>)
    ensures forall i :: 0 <= i < |RemoveVariables(b, dead)| ==> CleanOf(RemoveVariables(b, dead)[i], dead)
  {
    if b != [] {
      var init := b[..|b| - 1];
      var s := b[|b| - 1];
      RemovedClean(init, dead);
      var pre := RemoveVariables(init, dead);
      var out := RemoveVariables(b, dead);
      var tail := RemoveStmt(s, dead);
      assert out == pre + tail;
      assert forall k :: 0 <= k < |tail| ==> CleanOf(tail[k], dead);
      forall i | 0 <= i < |out| ensures CleanOf(out[i], dead) {
        if i < |pre| {
          assert out[i] == pre[i];
        } else {
          assert out[i] == tail[i - |pre|];
        }
      }
    }
  }

  lemma {:induction false} RemovedDeclared(b: seq<Stmt>, dead: set<Name>)
    ensures DeclaredAt(RemoveVariables(b, dead)) == DeclaredAt(b) - dead
    ensures UntouchedOf(RemoveVariables(b, dead)) == UntouchedOf(b)
  {
    if b != [] {
      var init := b[..|b| - 1];
      var s := b[|b| - 1];
      RemovedDeclared(init, dead);
      var pre := RemoveVariables(init, dead);
      assert RemoveVariables(b, dead) == pre + RemoveStmt(s, dead);
      AppendDeclared(pre, RemoveStmt(s, dead));
      AppendUntouched(pre, RemoveStmt(s, dead));
      AppendDeclared(init, [s]);
      AppendUntouched(init, [s]);
      assert init + [s] == b;
    }
  }

  lemma {:induction false} AppendDeclared(b: seq<Stmt>, c: seq<Stmt>)
    ensures DeclaredAt(b + c) == DeclaredAt(b) + DeclaredAt(c)
    decreases |c|
  {
    if c != [] {
      assert (b + c)[..|b + c| - 1] == b + c[..|c| - 1];
      AppendDeclared(b, c[..|c| - 1]);
    } else {
      assert b + c == b;
    }
  }

  lemma {:induction false} AppendUntouched(b: seq<Stmt>, c: seq<Stmt>)
    ensures UntouchedOf(b + c) == UntouchedOf(b) + UntouchedOf(c)
    decreases |c|
  {
    if c != [] {
      assert (b + c)[..|b + c| - 1] == b + c[..|c| - 1];
      AppendUntouched(b, c[..|c| - 1]);
    } else {
      assert b + c == b;
    }
  }

  lemma {:induction false} RemoveVariablesAppend(b: seq<Stmt>, c: seq<Stmt>, dead: set<Name>)
    ensures RemoveVariables(b + c, dead) == RemoveVariables(b, dead) + RemoveVariables(c, dead)
    decreases |c|
  {
    if c != [] {
      assert (b + c)[..|b + c| - 1] == b + c[..|c| - 1];
      RemoveVariablesAppend(b, c[..|c| - 1], dead);
    } else {
      assert b + c == b;
    }
  }

  lemma RemoveStmtIdempotent(s: Stmt, dead: set<Name>)
    ensures RemoveVariables(RemoveStmt(s, dead), dead) == RemoveStmt(s, dead)
  {
    var r := RemoveStmt(s, dead);
    if r != [] {
      assert r == [r[0]] && r[..0] == [];
      assert RemoveVariables(r, dead) == RemoveStmt(r[0], dead);
      if s.LocalDecl? {
        assert (s.vars - dead) - dead == s.vars - dead;
      }
    }
  }

  /** Removing the same names twice removes nothing more. */
  lemma {:induction false} RemoveVariablesIdempotent(b: seq<Stmt>, dead: set<Name>)
    ensures RemoveVariables(RemoveVariables(b, dead), dead) == RemoveVariables(b, dead)
  {
    if b != [] {
      var init := b[..|b| - 1];
      var s := b[|b| - 1];
      RemoveVariablesIdempotent(init, dead);
      RemoveVariablesAppend(RemoveVariables(init, dead), RemoveStmt(s, dead), dead);
      RemoveStmtIdempotent(s, dead);
    }
  }

  /** With the closure of DeadLocals, `a` is live in that block (it is read
      by the assignment to `s`), so the removal leaves the block as it is. */
  lemma SelfUpdateKept()
    ensures DeadSet(BlockUsage(NoUsage, SelfUpdate, {A})) == {}
    ensures RemoveVariables(SelfUpdate, {}) == SelfUpdate
  {
    SelfUpdateUsage();
    var u := BlockUsage(NoUsage, SelfUpdate, {A});
    assert Path(u, [A]);
    var b := SelfUpdate;
    assert b[..1][..0] == [] && b[..2][..1] == b[..1] && b[..3][..2] == b[..2] && b[..4][..3] == b[..3];
    assert b[..4] == b;
    assert {A} - {} == {A};
    assert RemoveVariables(b[..1], {}) == b[..1];
    assert RemoveVariables(b[..2], {}) == b[..2];
    assert RemoveVariables(b[..3], {}) == b[..3];
  }

  /** Two environments agree on every name outside `dead`. */
  ghost predicate AgreeOutside(env1: Env, env2: Env, dead: set<Name>) {
    forall x :: x !in dead ==> (x in env1 <==> x in env2) && (x in env1 ==> env1[x] == env2[x])
  }

  /** An assignment kept by the removal reads no removed name. */
  predicate ReadsNoDead(s: Stmt, dead: set<Name>) {
    s.Assign? && s.lhs.Id() !in dead ==> FreeVars(s.rhs) !! dead
  }

  /** The removal, taken from the front. */
  lemma RemoveVariablesCons(c: seq<Stmt>, dead: set<Name>)
    requires c != []
    ensures RemoveVariables(c, dead) == RemoveStmt(c[0], dead) + RemoveVariables(c[1..], dead)
  {
    assert c == [c[0]] + c[1..];
    RemoveVariablesAppend([c[0]], c[1..], dead);
    assert [c[0]][..0] == [];
  }

  /** Running the pruned statements from an environment that agrees with
      the original run outside `dead` succeeds and still agrees outside
      `dead`, provided no kept assignment reads a removed name. */
  lemma {:induction false} ExecRemoved(c: seq<Stmt>, dead: set<Name>, env1: Env, env2: Env, call: CallFn)
    requires forall i :: 0 <= i < |c| ==> ReadsNoDead(c[i], dead)
    requires AgreeOutside(env1, env2, dead)
    requires Exec(c, env1, call).Some?
    ensures Exec(RemoveVariables(c, dead), env2, call).Some?
    ensures AgreeOutside(Exec(c, env1, call).value, Exec(RemoveVariables(c, dead), env2, call).value, dead)
    decreases |c|
  {
    if c != [] {
      var s := c[0];
      var rest := c[1..];
      RemoveVariablesCons(c, dead);
      var tail := RemoveVariables(rest, dead);
      assert forall i :: 0 <= i < |rest| ==> rest[i] == c[i + 1];
      match s
      case LocalDecl(vars) =>
        ExecRemoved(rest, dead, env1, env2, call);
        if vars - dead != {} {
          assert ([LocalDecl(vars - dead)] + tail)[1..] == tail;
        } else {
          assert [] + tail == tail;
        }
      case Assign(Var(a), e) =>
        var v := Eval(e, env1, call).value;
        if a in dead {
          assert [] + tail == tail;
          ExecRemoved(rest, dead, env1[a := v], env2, call);
        } else {
          EvalAgree(e, env1, env2, call);
          assert ([s] + tail)[1..] == tail;
          ExecRemoved(rest, dead, env1[a := v], env2[a := v], call);
        }
    }
  }

  /** Safety of the removal: when the locals are names the block declares,
      running the pruned block succeeds wherever the original does, and the
      two runs end with the same value for every name that is not a dead
      local (in particular for every name outside the locals). */
  lemma RemovalSafe(b: seq<Stmt>, locals: set<Name>, env: Env, call: CallFn)
    requires locals <= BlockUsage(NoUsage, b, locals).declared
    requires Exec(b, env, call).Some?
    ensures Exec(RemoveVariables(b, DeadSet(BlockUsage(NoUsage, b, locals))), env, call).Some?
    ensures AgreeOutside(Exec(b, env, call).value,
                         Exec(RemoveVariables(b, DeadSet(BlockUsage(NoUsage, b, locals))), env, call).value,
                         DeadSet(BlockUsage(NoUsage, b, locals)))
  {
    var u := BlockUsage(NoUsage, b, locals);
    var dead := DeadSet(u);
    forall i | 0 <= i < |b| ensures ReadsNoDead(b[i], dead) {
      var s := b[i];
      if s.Assign? && s.lhs.Id() !in dead {
        forall x | x in FreeVars(s.rhs) ensures x !in dead {
          if x in dead {
            DeadIsUnread(b, locals, x);
            assert WithinStmt(s, b[i]) && Within(s, b);
            if s.lhs.Id() in locals {
              assert ReadsInto(s, s.lhs.Id(), x, locals);
            }
          }
        }
      }
    }
    ExecRemoved(b, dead, env, env, call);
  }

  /** The statements of the pruned block are exactly what the removal makes
      of the original statements. */
  lemma {:induction false} RemovedFrom(b: seq<Stmt>, dead: set<Name>, t: Stmt)
    ensures t in RemoveVariables(b, dead) <==> exists i :: 0 <= i < |b| && t in RemoveStmt(b[i], dead)
  {
    if b != [] {
      var init := b[..|b| - 1];
      RemovedFrom(init, dead, t);
      if t in RemoveVariables(b, dead) && t !in RemoveVariables(init, dead) {
        assert t in RemoveStmt(b[|b| - 1], dead);
      }
      if exists i :: 0 <= i < |b| && t in RemoveStmt(b[i], dead) {
        var i :| 0 <= i < |b| && t in RemoveStmt(b[i], dead);
        if i < |b| - 1 {
          assert init[i] == b[i];
        }
      }
    }
  }

  /** A statement the removal keeps, or a statement nested in it, is still
      in the pruned block. */
  lemma WithinKept(b: seq<Stmt>, dead: set<Name>, s': Stmt, i: int)
    requires 0 <= i < |b| && WithinStmt(s', b[i])
    requires !b[i].LocalDecl? && !(b[i].Assign? && b[i].lhs.Id() in dead)
    ensures Within(s', RemoveVariables(b, dead))
  {
    assert b[i] in RemoveStmt(b[i], dead);
    RemovedFrom(b, dead, b[i]);
    var j :| 0 <= j < |RemoveVariables(b, dead)| && RemoveVariables(b, dead)[j] == b[i];
  }

  /** A live name of a declaration is still declared in the pruned block. */
  lemma DeclKept(b: seq<Stmt>, dead: set<Name>, i: int, x: Name)
    requires 0 <= i < |b| && b[i].LocalDecl? && x in b[i].vars && x !in dead
    ensures Within(LocalDecl(b[i].vars - dead), RemoveVariables(b, dead))
  {
    var t := LocalDecl(b[i].vars - dead);
    assert x in b[i].vars - dead;
    assert t in RemoveStmt(b[i], dead);
    RemovedFrom(b, dead, t);
    var j :| 0 <= j < |RemoveVariables(b, dead)| && RemoveVariables(b, dead)[j] == t;
    assert WithinStmt(t, RemoveVariables(b, dead)[j]);
  }

  /** Every name on a path is reachable, through the path's prefix. */
  lemma PathReachable(u: Usage, p: seq<Name>, k: int)
    requires Path(u, p) && 0 <= k < |p|
    ensures Reachable(u, p[k])
  {
    var q := p[..k + 1];
    assert Path(u, q) && q[|q| - 1] == p[k];
  }

  /** A used name stays used when the removed names are locals. */
  lemma {:induction false} UsedKept(b: seq<Stmt>, locals: set<Name>, dead: set<Name>, x: Name)
    requires dead <= locals
    requires x in BlockUsage(NoUsage, b, locals).used
    ensures x in BlockUsage(NoUsage, RemoveVariables(b, dead), locals).used
  {
    BlockUsed(NoUsage, b, locals);
    BlockUsed(NoUsage, RemoveVariables(b, dead), locals);
    var s :| Within(s, b) && ReadsOutside(s, x, locals);
    var i :| 0 <= i < |b| && WithinStmt(s, b[i]);
    WithinKept(b, dead, s, i);
  }

  /** A dependency edge out of a kept name stays. */
  lemma {:induction false} EdgeKept(b: seq<Stmt>, locals: set<Name>, dead: set<Name>, a: Name, y: Name)
    requires (a, y) in BlockUsage(NoUsage, b, locals).deps && a !in dead
    ensures (a, y) in BlockUsage(NoUsage, RemoveVariables(b, dead), locals).deps
  {
    BlockDeps(NoUsage, b, locals);
    BlockDeps(NoUsage, RemoveVariables(b, dead), locals);
    var s :| Within(s, b) && ReadsInto(s, a, y, locals);
    var i :| 0 <= i < |b| && WithinStmt(s, b[i]);
    WithinKept(b, dead, s, i);
  }

  /** A declared name that is not removed stays declared. */
  lemma {:induction false} DeclaredKept(b: seq<Stmt>, locals: set<Name>, dead: set<Name>, y: Name)
    requires y in BlockUsage(NoUsage, b, locals).declared && y !in dead
    ensures y in BlockUsage(NoUsage, RemoveVariables(b, dead), locals).declared
  {
    BlockDeclared(NoUsage, b, locals);
    BlockDeclared(NoUsage, RemoveVariables(b, dead), locals);
    var s :| Within(s, b) && Declares(s, y);
    var i :| 0 <= i < |b| && WithinStmt(s, b[i]);
    if b[i].LocalDecl? {
      DeclKept(b, dead, i, y);
      assert Declares(LocalDecl(b[i].vars - dead), y);
    } else {
      WithinKept(b, dead, s, i);
    }
  }

  /** When every declared name is a local, the removal keeps every path of
      dependencies from a used name, so a name live before is live after. */
  lemma {:induction false} ReachKept(b: seq<Stmt>, locals: set<Name>, x: Name)
    requires BlockUsage(NoUsage, b, locals).declared <= locals
    requires Reachable(BlockUsage(NoUsage, b, locals), x)
    ensures Reachable(BlockUsage(NoUsage, RemoveVariables(b, DeadSet(BlockUsage(NoUsage, b, locals))), locals), x)
  {
    var u := BlockUsage(NoUsage, b, locals);
    var dead := DeadSet(u);
    var u' := BlockUsage(NoUsage, RemoveVariables(b, dead), locals);
    var p :| Path(u, p) && p[|p| - 1] == x;
    forall k | 0 <= k < |p| ensures p[k] !in dead {
      PathReachable(u, p, k);
    }
    UsedKept(b, locals, dead, p[0]);
    forall k | 0 <= k < |p| - 1 ensures (p[k], p[k + 1]) in u'.deps {
      EdgeKept(b, locals, dead, p[k], p[k + 1]);
    }
    forall k | 1 <= k < |p| ensures p[k] in u'.declared {
      DeclaredKept(b, locals, dead, p[k]);
    }
    assert Path(u', p);
  }

  /** A declaration in the pruned block comes from one in the original. */
  lemma DeclaresBack(b: seq<Stmt>, dead: set<Name>, s: Stmt, x: Name)
    requires Within(s, RemoveVariables(b, dead)) && Declares(s, x)
    ensures exists s0 :: Within(s0, b) && Declares(s0, x)
  {
    var b' := RemoveVariables(b, dead);
    var j :| 0 <= j < |b'| && WithinStmt(s, b'[j]);
    RemovedFrom(b, dead, b'[j]);
    var i :| 0 <= i < |b| && b'[j] in RemoveStmt(b[i], dead);
    if b'[j] == b[i] {
      assert Within(s, b);
    } else {
      assert WithinStmt(b[i], b[i]) && Declares(b[i], x);
    }
  }

  /** The removal declares no name the original block did not declare. */
  lemma {:induction false} DeclaredShrinks(b: seq<Stmt>, locals: set<Name>, dead: set<Name>)
    ensures BlockUsage(NoUsage, RemoveVariables(b, dead), locals).declared <= BlockUsage(NoUsage, b, locals).declared
  {
    var b' := RemoveVariables(b, dead);
    BlockDeclared(NoUsage, b, locals);
    BlockDeclared(NoUsage, b', locals);
    forall x | x in BlockUsage(NoUsage, b', locals).declared
      ensures x in BlockUsage(NoUsage, b, locals).declared
    {
      var s :| Within(s, b') && Declares(s, x);
      DeclaresBack(b, dead, s, x);
    }
  }

  /** A statement the removal leaves exactly as it is. */
  predicate KeptWhole(s: Stmt, dead: set<Name>) {
    && (s.LocalDecl? ==> s.vars != {} && s.vars !! dead)
    && (s.Assign? ==> s.lhs.Id() !in dead)
  }

  lemma RemoveStmtWhole(s: Stmt, dead: set<Name>)
    requires KeptWhole(s, dead)
    ensures RemoveStmt(s, dead) == [s]
  {
    if s.LocalDecl? {
      assert s.vars - dead == s.vars;
    }
  }

  /** A block whose declarations and assignments avoid `dead` loses nothing. */
  lemma {:induction false} RemoveVariablesNoop(c: seq<Stmt>, dead: set<Name>)
    requires forall j :: 0 <= j < |c| ==> KeptWhole(c[j], dead)
    ensures RemoveVariables(c, dead) == c
  {
    if c != [] {
      var init := c[..|c| - 1];
      var s := c[|c| - 1];
      assert forall j :: 0 <= j < |init| ==> init[j] == c[j];
      RemoveVariablesNoop(init, dead);
      RemoveStmtWhole(s, dead);
      assert RemoveVariables(c, dead) == RemoveVariables(init, dead) + RemoveStmt(s, dead);
      assert c == init + [s];
    }
  }

  /** The whole pass is idempotent: pruning the pruned block, with the dead
      set recomputed from it, changes nothing, when every declared name is
      a local. */
  lemma PassIdempotent(b: seq<Stmt>, locals: set<Name>)
    requires BlockUsage(NoUsage, b, locals).declared <= locals
    ensures var b' := RemoveVariables(b, DeadSet(BlockUsage(NoUsage, b, locals)));
            RemoveVariables(b', DeadSet(BlockUsage(NoUsage, b', locals))) == b'
  {
    var u := BlockUsage(NoUsage, b, locals);
    var dead := DeadSet(u);
    var b' := RemoveVariables(b, dead);
    var u' := BlockUsage(NoUsage, b', locals);
    var dead' := DeadSet(u');
    RemoveVariablesMeaning(b, dead);
    DeclaredShrinks(b, locals, dead);
    BlockDeclared(NoUsage, b', locals);
    forall x | x in u'.declared && x !in dead ensures x !in dead' {
      ReachKept(b, locals, x);
    }
    forall j | 0 <= j < |b'| ensures KeptWhole(b'[j], dead') {
      if b'[j].LocalDecl? {
        forall x | x in b'[j].vars ensures x !in dead' {
          assert WithinStmt(b'[j], b'[j]) && Declares(b'[j], x);
        }
      }
    }
    RemoveVariablesNoop(b', dead');
  }
}
