# Arbor: mechanism solvers, sample trees and cable-cell defaults

This project models three parts of the Arbor neural simulator in Dafny and
proves properties of them.

- **modcc's solver passes** (`modcc/solvers.cpp`). These rewrite the
  derivative block of a NMODL mechanism.
  - The `cnexp` solver turns each diagonal linear ODE `s' = a*s + b` into its
    exact one-step update.
  - The `sparse` solver builds the implicit Euler system `(I - dt*C*F^-1) s' = s`,
    reduces it symbolically and emits one division per state variable. The
    system may have COMPARTMENT scale factors and CONSERVE rows.
  - The `linear` solver does the same for LINEAR equations.
  - `remove_unused_locals` drops declared locals that no used name depends on.
- **The sample tree** (`arbor/morph/sample_tree.cpp`). A morphology is grown
  sample by sample. Each sample records its parent and carries the root,
  terminal, fork and collocated property bits. The module also covers the
  conversion from SWC records.
- **Cable-cell global properties** (`arbor/cable_cell_param.cpp`). The check
  that every default a cable cell needs is supplied, and the
  NEURON-compatible default parameter set.

Each visitor of the source is a class whose fields are the visitor's members
(`statements_`, `dvars_`, `A_`, `symtbl_`, `deps`, `unused_ids`, ...). Every
method is proved against a specification function of the old state. The
properties the source promises are lemmas about those functions.

- `Ast` holds the part of the syntax tree the solvers read and write.
- `Semantics` gives straight-line statements a meaning. It is used to state
  what the emitted updates compute.
- `Symge` holds the symbolic-matrix side of the sparse and linear solvers.
- `linear_test`, `gj_reduce`, `is_collocated` and the `exp_pade_11` call are
  function parameters.

## Model

| member | source | states |
|---|---|---|
| Blocks.DerivVars | modcc/solvers.cpp:16-25 | the first pass lists exactly the variables of the block's derivative assignments, no more entries than statements |
| Blocks.DerivVarsAt | modcc/solvers.cpp:16-25 | the derivative assignment at statement i gives the entry at position "number of derivative assignments before i": block order, one entry per assignment |
| Blocks.DerivVarsFrom | modcc/solvers.cpp:16-25 | every entry comes from a derivative assignment at that position, so there are no other entries |
| Ast.ExprValue | modcc/solvers.cpp:100 | expr_value has a value exactly for a present numeric literal, and that value is the literal's; anything else is NaN |
| Ast.Substitute | modcc/solvers.cpp:220-223 | substitute leaves an expression that mentions no key unchanged; the result mentions only the unreplaced names and the images' names |
| Semantics.SubstituteMeaning | modcc/solvers.cpp:220-223 | the substituted expression evaluates as the original does with every key bound to its image's value |
| Ast.LocalAssign | modcc/solvers.cpp:56-58 | make_unique_local_assign yields a declaration of the fresh local, then its assignment from `init` |
| Cnexp.CnexpUpdateShape | modcc/solvers.cpp:30-137 | a derivative assignment is diagnosed exactly when it is not diagonal linear; the diagnosis emits nothing; otherwise one or two fresh temporaries are declared and initialised, then `s` is assigned once |
| Cnexp.CnexpDiagnostics | modcc/solvers.cpp:46-49 | a block gives one "not diagonal linear" diagnostic per offending derivative assignment, and no other diagnostic |
| Cnexp.CnexpStmtCount | modcc/solvers.cpp:38-41 | the output holds every copied statement once, plus two statements per temporary and one update per solved equation |
| Cnexp.ConstantMeaning | modcc/solvers.cpp:52-63 | with a zero or missing coefficient, running the output sets `s` to the exact solution `s + b*dt` and changes nothing else but fresh temporaries |
| Cnexp.HomogeneousMeaning | modcc/solvers.cpp:65-76 | for `s' = a*s`, running the output sets `s` to `s*exp(a*dt)` and nothing else |
| Cnexp.GeneralMeaning | modcc/solvers.cpp:119-135 | for `s' = a*s + b` with `a != 0`, running the output sets `s` to `-b/a + (s + b/a)*exp(a*dt)`, the exact solution, and nothing else |
| Cnexp.GatingUpdateMeaning | modcc/solvers.cpp:92-116 | for the gating form `s' = (b - s)/a`, running the output sets `s` to the exact solution of that ODE, with the exponential taken of `-dt/a` |
| Cnexp.AffineUpdateMeaning | modcc/solvers.cpp:51-136 | in each non-gating branch, running the output sets `s` to the exact solution of `s' = a*s + b` over one step |
| Cnexp.MonolinearCombination | modcc/solvers.cpp:44-49 | a decomposition that passes the monolinear test combines to `a*s + b` over the state variables, however often `s` occurs among them |
| Cnexp.CnexpSolvesOde | modcc/solvers.cpp:44-136 | when `linear_test`'s answer describes `rhs`, `rhs` evaluates to `a*s + b`, and the constant, homogeneous and general outputs set `s` to the exact solution of that ODE |
| Cnexp.GatingSolvesOde | modcc/solvers.cpp:92-116 | when `linear_test`'s answer describes the numerator, `rhs` evaluates to `(b - s)/a`, and the gating output sets `s` to the exact solution of that ODE |
| Cnexp.GatingIsAffineStep | modcc/solvers.cpp:88-90 | the gating update `b + (s - b)*e` is the exact solution of `s' = -s/a + b/a` |
| Cnexp.ConstantStep | modcc/solvers.cpp:53 | with `a = 0` the exact solution is the Euler step `s + b*dt` |
| Cnexp.HomogeneousStep | modcc/solvers.cpp:66 | with `b = 0` the exact solution is the scaling `s*e` |
| Cnexp.ExecConstantUpdate | modcc/solvers.cpp:56-62 | the three emitted statements bind the temporary to `b` and set `s` to `s0 + b*dt` |
| Cnexp.ExecHomogeneousUpdate | modcc/solvers.cpp:68-74 | the emitted statements bind the temporary to `a` and set `s` to `s0*exp_pade_11(a*dt)` |
| Cnexp.ExecAffineUpdate | modcc/solvers.cpp:120-134 | the emitted statements bind `a_` and `ba_ = b/a` and set `s` to `-ba + (s0 + ba)*exp_pade_11(a*dt)` |
| Cnexp.ExecGatingUpdate | modcc/solvers.cpp:104-115 | the emitted statements bind `a_` and `b_` and set `s` to `b + (s0 - b)*exp_pade_11(-dt/a)` |
| Cnexp.CnexpSolver.MakeLocal | modcc/solvers.cpp:56-59 | a fresh temporary is handed out with its declaration and initialisation; the counter advances by one and nothing else changes |
| Cnexp.CnexpSolver.VisitAssignment | modcc/solvers.cpp:30-137 | appends exactly the statements and diagnostics CnexpUpdate gives for the assignment; the state-variable list is unchanged |
| Cnexp.CnexpSolver.VisitStatement | modcc/solvers.cpp:38-41 | one statement's output is appended; non-assignments are copied |
| Cnexp.CnexpSolver.VisitStatements | modcc/solvers.cpp:27 | the statements are visited in order, appending CnexpStmts of the block |
| Cnexp.CnexpSolver.VisitBlock | modcc/solvers.cpp:16-28 | the state variables become those of the derivative assignments, then every statement is visited in order |
| Symge.Define | modcc/solvers.cpp:364 | define appends a new primitive symbol named `x` and returns its index |
| Symge.RowAt | modcc/solvers.cpp:397 | a row holds a symbol at column `c` exactly when one of its entries is for `c` |
| Symge.FirstNonzero | modcc/solvers.cpp:396-401 | the leading column is the least column holding a symbol, or none |
| Symge.LeadColumn | modcc/solvers.cpp:396-401 | the scan that stops at the first entry returns the leading column |
| Symge.CollectSpec | modcc/solvers.cpp:249-289 | the entries pushed for a column vector are exactly the columns that have an expression, each with its expression, in increasing column order |
| Symge.RowOfLookup | modcc/solvers.cpp:282-288 | the built row has an entry at column `c` exactly when the vector has an expression there, naming the symbol defined for it |
| Symge.Augment | modcc/solvers.cpp:371 | augment puts the k-th right-hand side at column n of row k |
| Symge.AugmentColumns | modcc/solvers.cpp:371 | augmenting keeps every other column and puts the right-hand side in column n |
| Symge.TermExprMeaning | modcc/solvers.cpp:142-152 | the expression for a symbol term evaluates to the product of its two symbols, or to 0 for the zero term |
| Symge.DiffExprMeaning | modcc/solvers.cpp:154-171 | leaving zero terms out does not change the value: the expression for a term difference evaluates to left - right |
| Symge.Named | modcc/solvers.cpp:382-384 | renaming keeps every symbol's kind and definition |
| Symge.NamedDistinct | modcc/solvers.cpp:382-384 | distinct derived symbols get distinct `t_` temporaries |
| Symge.TempDefsShape | modcc/solvers.cpp:375-388 | the k-th derived symbol's temporary is declared at statement 2k and assigned its definition at 2k+1 |
| Symge.RowUpdatesMeaning | modcc/solvers.cpp:390-411 | each reduced row gives one assignment, to the variable of its first nonzero column, of the augmented entry divided by that column's entry |
| Symge.RowUpdateRun | modcc/solvers.cpp:403-410 | running a row's update sets that variable to the quotient and changes nothing else |
| Symge.EmitSolution | modcc/solvers.cpp:375-411 | emits the temporaries of all derived symbols, then one update per row; returns the renamed table and the advanced counter |
| SparseSpec.IndexOf | modcc/solvers.cpp:192 | std::find gives the first index holding `x`, or none exactly when `x` is absent |
| SparseSpec.Resize | modcc/solvers.cpp:183 | resize keeps the existing scale factors and leaves new ones unset |
| SparseSpec.FindTerm | modcc/solvers.cpp:329-330 | std::find_if gives the first stoichiometric term naming `x`, or none exactly when no term names it |
| SparseProps.EmitTempsShape | modcc/solvers.cpp:282-286 | the k-th entry's `a_` temporary is declared at statement 2k and assigned the entry's expression at 2k+1 |
| SparseProps.PushedRowMeaning | modcc/solvers.cpp:249-289 | the row gets an entry at column `c` exactly when the column has an expression, held through a fresh temporary |
| SparseProps.EntryMeaning | modcc/solvers.cpp:249-280 | each emitted entry evaluates to the entry of `I - dt*C*F^-1`; an entry is left out only off the diagonal where that entry is 0 |
| SparseProps.NoCoefficientEntry | modcc/solvers.cpp:252-254 | with no coefficient the matrix entry is 1 on the diagonal and 0 elsewhere |
| SparseProps.AssignEntries | modcc/solvers.cpp:241-290 | a homogeneous equation fills its row at column `c` exactly when the entry expression exists, holding that expression, and moves to the next equation |
| SparseProps.AssignStepShape | modcc/solvers.cpp:202-291 | a derivative assignment that reaches the matrix pushes the entries of its column onto its row and nothing else |
| SparseProps.AssignOutcome | modcc/solvers.cpp:215-245 | a row already filled by CONSERVE is skipped; otherwise the equation is rejected exactly when not homogeneous or out of order, with the matching diagnostic, changing nothing else |
| SparseProps.ConserveOutcome | modcc/solvers.cpp:293-359 | CONSERVE succeeds exactly when its first term names a state variable; it then records that row and a temporary holding the total; otherwise it records the matching diagnostic |
| SparseProps.ConserveStepShape | modcc/solvers.cpp:322-358 | a CONSERVE statement clears its row, pushes the terms' column, then defines the total's temporary |
| SparseProps.ConserveEntryPresent | modcc/solvers.cpp:325-346 | the conserved row has an entry at column `c` exactly when some term names that state variable |
| SparseProps.ConserveEntryValue | modcc/solvers.cpp:332-345 | that entry holds the first matching term's coefficient, times the column's scale factor when one is set |
| SparseProps.ApplyScaleSpec | modcc/solvers.cpp:188-200 | COMPARTMENT succeeds exactly when every listed variable is a state variable; it then sets the factor of exactly the listed columns |
| SparseProps.StmtStepCount | modcc/solvers.cpp:202-291 | diagnostics are only appended; a derivative assignment that adds none claims exactly one row |
| SparseProps.SparseDeqCount | modcc/solvers.cpp:173-186 | over a block without diagnostics, every derivative equation claims exactly one row, in order |
| SparseProps.ConservedRhsMeaning | modcc/solvers.cpp:366-370 | after the overrides, each right-hand side is the last CONSERVE total for that row, or the row's own variable |
| SparseProps.RhsNames | modcc/solvers.cpp:361-371 | the augmented column names the last CONSERVE total for the row, or the row's state variable |
| Sparse.ConserveStepCases | modcc/solvers.cpp:303-320 | the three outcomes of CONSERVE: the first term is not an identifier, it is not a state variable, or its row is replaced |
| Sparse.AssignStepMatrix | modcc/solvers.cpp:203-206 | allocating the matrix before an assignment changes nothing |
| Sparse.SparseSolver.VisitBlock | modcc/solvers.cpp:173-186 | collects the state variables, sizes the scale factors, then the state is SparseStmts of the block |
| Sparse.SparseSolver.VisitStatements | modcc/solvers.cpp:185 | the state after the loop is SparseStmts of the old state and the block |
| Sparse.SparseSolver.VisitStatement | modcc/solvers.cpp:173-359 | the state after one statement is StmtStep of the old one |
| Sparse.SparseSolver.VisitCompartment | modcc/solvers.cpp:188-200 | the state is CompartmentStep of the old one |
| Sparse.SparseSolver.VisitAssignment | modcc/solvers.cpp:202-291 | the state is AssignStep of the old one |
| Sparse.SparseSolver.PushEquation | modcc/solvers.cpp:249-290 | the column's entries are pushed onto the current row, then the equation index advances |
| Sparse.SparseSolver.VisitConserve | modcc/solvers.cpp:293-359 | the state is ConserveStep of the old one |
| Sparse.SparseSolver.WriteConservedRow | modcc/solvers.cpp:322-358 | the row is cleared, the terms' column pushed and the total's temporary defined |
| Sparse.SparseSolver.PushColumn | modcc/solvers.cpp:249-289 | every column with an expression gets a fresh temporary and an entry naming its new symbol, in column order |
| Sparse.SparseSolver.PushEntry | modcc/solvers.cpp:282-288 | one entry: a temporary, a new symbol, and the row entry naming it |
| Sparse.SparseSolver.RhsColumn | modcc/solvers.cpp:362-370 | the augmented column is a new symbol per state variable, each replaced by the symbol of the last CONSERVE total for its row (RhsNames states its meaning) |
| Sparse.SparseSolver.Finalize | modcc/solvers.cpp:361-414 | the matrix is augmented with the right-hand sides and reduced; the temporaries of the derived symbols and the row updates are appended; diagnostics are unchanged |
| LinearSystem.CoefNames | modcc/solvers.cpp:440-446 | one slot per unknown; a slot holds a name exactly when the unknown has a coefficient, and the name is that coefficient's |
| LinearSystem.WithMatrix | modcc/solvers.cpp:429-432 | the matrix is allocated as n empty rows on the first equation and kept afterwards; no other field changes |
| LinearSystem.EquationShape | modcc/solvers.cpp:440-453 | a homogeneous equation's row is its coefficients' column; then the right-hand side's symbol is defined |
| LinearSystem.PushedCoefs | modcc/solvers.cpp:440-452 | the row has an entry at column `c` exactly when the unknown has a coefficient, naming a symbol for that coefficient |
| LinearSystem.EquationEntries | modcc/solvers.cpp:440-452 | the equation's row has an entry for unknown `c` exactly when linear_test gives it a coefficient; the entry's symbol is that coefficient's name |
| LinearSystem.EquationRhs | modcc/solvers.cpp:453-454 | a homogeneous equation records a right-hand side naming its rhs and moves to the next equation; other rows, statements and diagnostics are unchanged |
| LinearSystem.EquationRejected | modcc/solvers.cpp:434-438 | an equation is reported exactly when not homogeneous, also when no free row is left, and nothing else changes beyond the matrix allocation |
| LinearSystem.StmtStepFacts | modcc/solvers.cpp:420-455 | a LINEAR statement writes nothing and is reported (one diagnostic, no row) or takes a row; any other statement is copied |
| LinearSystem.LinearBlock | modcc/solvers.cpp:416-455 | the output is the non-LINEAR statements in order; there is one diagnostic per LINEAR statement that is not homogeneous; with no diagnostic, each LINEAR statement took a row and recorded a right-hand side |
| LinearSystem.LinearSolver.VisitBlock | modcc/solvers.cpp:416-418 | the state is LinearStmts of the old state and the block; only homogeneous equations need a free row |
| LinearSystem.LinearSolver.VisitStatement | modcc/solvers.cpp:420-423 | the state is StmtStep of the old one |
| LinearSystem.LinearSolver.VisitEquation | modcc/solvers.cpp:425-455 | the state is EquationStep of the old one |
| LinearSystem.LinearSolver.PushCoefficients | modcc/solvers.cpp:440-452 | each unknown with a coefficient gets an entry whose symbol is defined for the coefficient's name |
| LinearSystem.LinearSolver.Finalize | modcc/solvers.cpp:456-500 | the matrix is augmented and reduced; the temporaries of the derived symbols and one update per row are appended |
| DeadLocalsSpec.ReadsFreeVars | modcc/solvers.cpp:534-562 | the visitor meets exactly the identifiers the expression involves |
| DeadLocalsSpec.StmtDeps | modcc/solvers.cpp:525-557 | the dependency edges are exactly the pairs (local target, name read in its right-hand side), at any depth of the statement |
| DeadLocalsSpec.BlockDeps | modcc/solvers.cpp:519-557 | the same over a block |
| DeadLocalsSpec.StmtUsed | modcc/solvers.cpp:543-561 | the used names are exactly the names read outside right-hand sides of local assignments: other assignments, call arguments, IF conditions |
| DeadLocalsSpec.BlockUsed | modcc/solvers.cpp:519-561 | the same over a block |
| DeadLocalsSpec.StmtDeclared | modcc/solvers.cpp:564-568 | the initial unused set is exactly the names declared at any depth |
| DeadLocalsSpec.BlockDeclared | modcc/solvers.cpp:519-568 | the same over a block |
| DeadLocalsSpec.ReachStep | modcc/solvers.cpp:590-596 | a declared local read by a local that must be kept must be kept too |
| DeadLocalsSpec.DeadIsUnread | modcc/solvers.cpp:570-578 | a local reported unused is never read outside a local's right-hand side, and only dead locals read it |
| DeadLocalsSpec.Edges | modcc/solvers.cpp:591 | equal_range yields exactly the dependency targets of `id` |
| DeadLocalsSpec.SelfUpdateUsage | modcc/solvers.cpp:525-568 | the first pass over `LOCAL a; a = 2; a = a*3; s = a` records one self edge, `a` used and `a` declared |
| DeadLocalsSpec.SelfUpdateDiverges | modcc/solvers.cpp:590-598 | the removal as written never terminates on that usage, at any recursion bound |
| DeadLocalsSpec.SelfUpdateKept | modcc/solvers.cpp:633-640 | with the corrected closure, `a` is live and the block is kept as it is |
| DeadLocalsSpec.RemoveVariablesMeaning | modcc/solvers.cpp:613-630 | after removal, at the top level of the block, no declaration is empty or names a removed local, no assignment targets one, the declared names lose exactly the removed ones, and every other statement is kept in order |
| DeadLocalsSpec.RemoveVariablesAppend | modcc/solvers.cpp:601-631 | removal works statement by statement: it distributes over concatenation |
| DeadLocalsSpec.RemoveVariablesIdempotent | modcc/solvers.cpp:601-631 | removing the same names twice removes nothing more |
| DeadLocalsSpec.ExecRemoved | modcc/solvers.cpp:613-631 | dropping assignments to dead names keeps a run successful and equal outside the dead names, when no kept assignment reads a dead name |
| DeadLocalsSpec.RemovalSafe | modcc/solvers.cpp:633-640 | running the pruned block succeeds wherever the original does and ends with the same value for every name that is not a dead local |
| DeadLocalsSpec.ReachKept | modcc/solvers.cpp:633-640 | a local that is live in the block is still live in the pruned block |
| DeadLocalsSpec.DeclaredShrinks | modcc/solvers.cpp:613-623 | the pruned block declares no name the original did not |
| DeadLocalsSpec.PassIdempotent | modcc/solvers.cpp:633-640 | the whole pass is idempotent: pruning the pruned block, with its dead set recomputed, leaves it unchanged |
| DeadLocals.PathCovered | modcc/solvers.cpp:570-578 | once the used names and every released local are closed, nothing on a dependency path stays unused |
| DeadLocals.UnusedVisitor.constructor | modcc/solvers.cpp:515 | a fresh visitor has no edges, uses or declarations, and nothing computed |
| DeadLocals.UnusedVisitor.VisitIdent | modcc/solvers.cpp:555-562 | an identifier adds an edge from a local left-hand side, or a use otherwise |
| DeadLocals.UnusedVisitor.VisitExpr | modcc/solvers.cpp:534-562 | an expression records ReadsUsage of its identifiers in visiting order |
| DeadLocals.UnusedVisitor.VisitArgs | modcc/solvers.cpp:543-547 | the arguments record their identifiers in order |
| DeadLocals.UnusedVisitor.VisitStatement | modcc/solvers.cpp:525-568 | the state is StmtUsage of the old one; the left-hand side is set only while a right-hand side is visited |
| DeadLocals.UnusedVisitor.VisitBlock | modcc/solvers.cpp:519-523 | the state is BlockUsage of the old one |
| DeadLocals.UnusedVisitor.RemoveDeps | modcc/solvers.cpp:590-598 | the corrected removal: `id` and every local it depends on leave the unused set, and only names that must be kept leave it |
| DeadLocals.UnusedVisitor.UnusedLocals | modcc/solvers.cpp:570-578 | the first call returns exactly the declared locals not reachable from a used name; later calls return the cached set |
| DeadLocals.UnusedVisitor.Reset | modcc/solvers.cpp:580-585 | all edges, uses and declarations are cleared, and the cache is invalidated |
| DeadLocals.RemoveVariableVisitor.constructor | modcc/solvers.cpp:607-608 | the visitor starts with no statements and the names to remove |
| DeadLocals.RemoveVariableVisitor.VisitLocalDecl | modcc/solvers.cpp:613-623 | a declaration loses the removed names and is dropped once empty |
| DeadLocals.RemoveVariableVisitor.VisitAssignment | modcc/solvers.cpp:625-630 | an assignment to a removed name is dropped, any other is kept |
| DeadLocals.RemoveVariableVisitor.VisitStatement | modcc/solvers.cpp:613-630 | one statement's removal is appended |
| DeadLocals.RemoveVariableVisitor.VisitBlock | modcc/solvers.cpp:601-631 | appends RemoveVariables of the block |
| DeadLocals.RemoveUnusedLocals | modcc/solvers.cpp:633-640 | the block without the top-level declarations and assignments of the declared locals that no used name depends on |
| SampleTree.AppendOutcome | arbor/morph/sample_tree.cpp:32-70 | append fails exactly when the root's parent is not mnpos or another parent is not an earlier sample; otherwise it pushes the sample and parent, marks the root, and changes only the parent's bits |
| SampleTree.ChildrenAfterAppend | arbor/morph/sample_tree.cpp:50-66 | the parent gains a child; it gains a second exactly when it already had one |
| SampleTree.AppendWellFormed | arbor/morph/sample_tree.cpp:44-67 | append keeps every bit's meaning: root is sample 0, terminal means no child, fork means a non-root sample with two or more children, collocated agrees with is_collocated against the parent |
| SampleTree.ChainMeaning | arbor/morph/sample_tree.cpp:77-85 | the list append hangs the first sample below `p` and each other below its predecessor, and returns the last id; it fails exactly when the first append fails |
| SampleTree.ChainWellFormed | arbor/morph/sample_tree.cpp:77-85 | the list append keeps the bits' meaning |
| SampleTree.BuildOutcome | arbor/morph/sample_tree.cpp:15-24 | construction succeeds exactly for equal lengths and valid parents, and then holds the given samples and parents |
| SampleTree.BuildWellFormed | arbor/morph/sample_tree.cpp:15-24 | a constructed tree's bits have their meaning |
| SampleTree.BuildPrefixFails | arbor/morph/sample_tree.cpp:21-23 | once a prefix throws, the construction throws the same error |
| SampleTree.PropsDetermined | arbor/morph/sample_tree.cpp:44-67 | a well-formed tree's bits are determined by its samples and parents |
| SampleTree.BuildProps | arbor/morph/sample_tree.cpp:15-24 | a constructed tree carries the bits read off its parent list |
| SampleTree.ForkProps | test/unit/test_morphology.cpp:137 | the bits read off the fork parent list are r, s, f, s, f, t, t, s, t |
| SampleTree.ForkExample | test/unit/test_morphology.cpp:137 | constructing that tree without collocation gives r, s, f, s, f, t, t, s, t, as the unit test expects |
| SampleTree.ToMsize | arbor/morph/sample_tree.cpp:126 | the int parent id becomes a 32-bit unsigned value; -1 becomes mnpos |
| SampleTree.SwcMeaning | arbor/morph/sample_tree.cpp:119-130 | SWC conversion succeeds exactly when every record after the first names an earlier record; the parents are then the converted ids |
| SampleTree.SampleTree.constructor | arbor/morph/sample_tree.cpp:120 | a new tree is empty and well formed |
| SampleTree.SampleTree.Append | arbor/morph/sample_tree.cpp:32-70 | returns the new id and grows the tree as AppendSample does, or returns the error and leaves the tree unchanged; the bits keep their meaning |
| SampleTree.SampleTree.Grow | arbor/morph/sample_tree.cpp:39-67 | the in-place update of a valid append gives AppendSample's tree |
| SampleTree.SampleTree.AppendLast | arbor/morph/sample_tree.cpp:72-75 | the sample goes below the last one, or becomes the root; this never fails |
| SampleTree.SampleTree.AppendSamples | arbor/morph/sample_tree.cpp:77-85 | the tree and result are AppendList's |
| SampleTree.SampleTree.AppendSamplesLast | arbor/morph/sample_tree.cpp:87-89 | the list goes below the last sample, or starts the tree |
| SampleTree.Create | arbor/morph/sample_tree.cpp:15-24 | returns a fresh valid tree holding Build's result, or Build's error |
| SampleTree.SwcAsSampleTree | arbor/morph/sample_tree.cpp:119-130 | returns a fresh valid tree holding the SWC conversion, or fails exactly when it does |
| CableCellParam.MissingSpeciesMeaning | arbor/cable_cell_param.cpp:29-33 | no species is reported exactly when every species has ion defaults; otherwise the first species without them |
| CableCellParam.BadIonMeaning | arbor/cable_cell_param.cpp:35-47 | no ion is reported exactly when every ion has both concentrations and a reversal potential or a method; otherwise the first ion's problem |
| CableCellParam.CheckComplete | arbor/cable_cell_param.cpp:10-48 | the check passes exactly for complete properties, defined independently of the check |
| CableCellParam.CheckOrder | arbor/cable_cell_param.cpp:10-48 | the missing scalars are reported first, in source order; then the first species without defaults; ion-data errors arise only when every species is covered |
| CableCellParam.DefaultsPass | arbor/cable_cell_param.cpp:50-65 | the NEURON defaults pass the check for any species drawn from na, k and ca |

## Left out

- The solvers' traversal (BlockRewriterBase) and its default visits are not
  part of this model. The model visits every statement in order, and a
  diagnostic does not stop the block. Statements the source does not visit
  specially are copied.
- `linear_test` (symdiff.hpp) and `gj_reduce` (symge.hpp) are not part of
  this model. They are function parameters. Finalize assumes the shape a
  reduction delivers: every row has a leading column below n and an entry in
  the augmented column.
- Sparse.SparseSolver.Finalize and LinearSystem.LinearSolver.Finalize require
  a leading column in every reduced row. Without one, the source reads an
  uninitialised `lhs_col`.
- LinearSystem.LinearSolver.VisitEquation requires, for a homogeneous
  equation only, a free matrix row and coefficients that are identifiers. The
  source indexes `A_[deq_index_]` and dereferences `is_identifier()` without
  checking either (modcc/solvers.cpp:440-453). A rejected equation needs
  neither. The right-hand side is taken to be a name.
- LinearSystem.LinearSolver.Finalize requires one right-hand side per row,
  which the symbolic matrix's augment assumes.
- The COMPARTMENT scale factor divides by column j's factor, as the code does.
- Names are resolved by a `locals` set instead of modcc's symbol table.
- Source locations, scopes and the diagnostic text beyond its kind are not
  modelled.
- Floating point is modelled as real arithmetic. NaN is a separate value
  where the source tests for it. `exp_pade_11` is an uninterpreted call, and
  the exactness lemmas assume only that its value at 0 is 1.
- Expressions are finite trees. Pointer identity, cloning and the parser used
  to build the update strings are not modelled.
- The debug print in `append(const msample&)` and `operator<<` of
  sample_tree.cpp are not modelled (output only). `reserve` only affects
  capacity.
- SampleTree.SampleTree.Append: sample ids are unbounded naturals. The 32-bit
  limit of msize_t on the number of samples is not modelled. mnpos is
  0xFFFF_FFFF, and only the SWC parent id's conversion to msize_t is written
  out.
- `is_collocated` is not part of this model. The sample tree takes it as the
  parameter `colloc`.
- The calcium reversal potential `12.5*log(2.0/5e-5)` of
  `neuron_parameter_defaults` is the parameter `caReversal`, because `log` is
  not modelled.
- The unordered maps of the cable-cell parameters are sequences of key-value
  pairs in iteration order, because the first error thrown depends on that
  order.
- SparseSpec.ConserveStep, Sparse.SparseSolver.VisitConserve and
  Sparse.SparseSolver.VisitBlock (through `ConservesNonempty`) require every
  CONSERVE statement to have at least one term. The source calls `front()` on
  the term list without checking (modcc/solvers.cpp:306), which is undefined
  on an empty CONSERVE.
- SparseSpec.FindTerm treats a stoichiometric term whose identifier part is
  not an identifier as not matching. The source's search dereferences
  `is_identifier()` of every term unchecked (modcc/solvers.cpp:330), which is
  undefined for such a term.
- LinearTest.Monolinear: `linear_test_result::monolinear` (symdiff.hpp) is not
  part of this model. It is read as "linear, and every coefficient other than
  that of `s` is the literal zero".
- The meaning of `linear_test`'s answer is stated as LinearTest.Decomposes and
  is a hypothesis of Cnexp.CnexpSolvesOde and Cnexp.GatingSolvesOde, which
  conclude what the right-hand side evaluates to. Without that hypothesis,
  the other Cnexp meaning lemmas describe the update of the coefficient and
  constant `linear_test` returns, not of the right-hand side itself.
- SparseProps.EntryMeaning and the LinearSystem equation lemmas state the
  matrix entries over `linear_test`'s coefficients only. That these entries
  form the implicit Euler system (or the linear system) of the right-hand
  sides' values is not proved.
- DeadLocalsSpec.PassIdempotent assumes every name the block declares is in
  `locals`, and DeadLocalsSpec.RemovalSafe assumes every name in `locals` is
  declared by the block. In modcc both hold, because a LOCAL declaration is
  what makes a symbol a local variable. RemovalSafe speaks only of blocks of
  declarations and assignments, the statements `Exec` runs.
- DeadLocalsSpec.RemoveStmt copies an IF statement whole. UnusedVisitor looks
  into IF branches (modcc/solvers.cpp:549-553), so a local declared in a
  branch can be dead. RemoveVariableVisitor overrides only the visits of a
  declaration and of an assignment (modcc/solvers.cpp:613-630), and the model
  applies them to the block's own statements. So the model does not remove a
  dead local's declaration or assignments inside a branch.
- DeadLocals.UnusedVisitor.UnusedLocals takes the used names in an arbitrary
  order, not in `std::set` order. Its result does not depend on the order.

## Findings

| source | as written | input that shows it | evidently intended | confidence | as-written member | corrected member |
|---|---|---|---|---|---|---|
| modcc/solvers.cpp:590-598 | `remove_deps_from_unused` recurses into every dependency still in the unused set, and erases `id` only after the loop | `LOCAL a; a = 2; a = a*3; s = a`: the edge a→a finds `a` still unused and recurses on it forever | erase `id` before following its dependencies, so every local is released at most once and the result is the set of declared locals no used name reaches | not executed | DeadLocalsSpec.SelfUpdateDiverges | DeadLocals.UnusedVisitor.RemoveDeps |
