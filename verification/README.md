# Verified models of the ysyx workbench

This project models the algorithmic parts of a processor-design workbench and proves what they are for:

* **Kconfig expressions** (`TristateExpr`, `ExprEquality`, `ExprReflexive`, `ExprJoin`, `ExprSlots`, `ExprDups`,
  `ExprTransform`, `ExprHeap`, `DupsHeap`, `MenuDependency`): the rewriter of dependency expressions over n < m < y. Every
  rewriting keeps the value under every valuation, every loop and recursion ends, and the normal forms are what the code
  relies on.
* **Kconfig symbols and menus** (`DependencyCheck`, `DependencyRank`, `SymbolValues`, `SymbolLaws`, `SymbolEvaluator`,
  `MenuTree`, `MenuWalk`, `StringEscape`): the cycle check, the memoised values, the restructuring of the menu tree on the
  heap, the walk without a stack, and string quoting.
* **minirv** (`Rv32iValues`, `Rv32iLaws`, `ShiftBytes`, `MinirvMachine`, `MinirvMacros`, `MinirvView`, `MinirvTables`,
  `MinirvRuns`, `MinirvShifts`, `MinirvAccess`, `MinirvProgram`, `MinirvSimulation`, `MinirvLut`): the macros that expand
  RV32I into eight instructions and lookup tables. `MinirvMacros` builds the instruction sequences, `MinirvMachine`
  executes them, and `MinirvSimulation.RunSimulated` says that whole programs behave as before.
* **64-bit division** from 32-bit words (`MachineWords`, `WordBits`, `BitCounts`, `Division64`).
* **The CoreMark list** (`StableMerge`, `CoreData`, `CoreList`, `CoreBench`, `CoreBenchLaws`): bottom-up merge sort on a
  heap list with comparators that write to the data they compare, and the restoring benchmark step.
* **Streaming SHA-256** (`Sha256Standard`, `Sha256Laws`, `Sha256Context`) against FIPS 180-4.
* **Debugger expressions** (`SdbGrammar`, `SdbLayers`, `SdbEval`) and **instruction words** (`InstructionPattern`,
  `InstructionCodec`, `InstructionTable`).

The modules named `...Laws`, and `SdbLayers`, state what the definitions mean in other terms: the value laws of a symbol
have only one solution, the grammar by layers is the debugger's, the hash constants come from roots of primes.

`dafny verify dfyconfig.toml` checks everything.

## Assumptions

* Valuations (`TristateExpr.Consistent`): the constants n, m, y have their own values, a bool is never m, and comparing a
  bool or tristate with n, m or y agrees with comparing the tristates. `ExprJoin.SeparatesConstants` is named where needed.
* minirv: `sp` is a multiple of 4 with 28 bytes of memory below it that overlap neither the tables nor the scratch array;
  a program uses neither `tp` nor `gp`, relies on nothing below `sp`, and stores neither there nor into the macros' data.
  Operands that a macro rejects, or for which it is wrong, are excluded by `MinirvProgram.Supported`; the exact
  conditions are proved in `MinirvRuns.SeqzExact` (`seqz` into `s0` or `sp` is wrong) and
  `MinirvAccess.LoadSignedByteExact` (`lb` into `sp` is wrong).
* Symbol values: the dependency graph is acyclic, which is what `DependencyRank.CheckConfiguration` establishes; there are
  no choices, and the value of the modules symbol is fixed.
* Trees and lists on the heap are well formed: every node occurs once.

Where code and comment differ the model follows the code: the comment above `expr_eq` compares sets of operands, the code
counts them (`ExprEquality.ExprEqIffSameOperands`, `ExprEquality.RepeatedOperandIsNotEqual`); a comment in
`expr_join_and` turns `a!=m && a!=n` into `a=m`, the code into `a=y`; and the checksum loops of `core_bench_list` take in
the first entry's data once for every node, not each node's own (`CoreBench.CrcLoop`).

## Model

| member | source | states |
|---|---|---|
| ExprEquality.EliminateYnPreservesValue | ysyx-workbench/nemu/tools/kconfig/expr.c:316-397 | Removing y and n operands keeps the value under every valuation. |
| ExprEquality.EliminateYnRemovesConstants | ysyx-workbench/nemu/tools/kconfig/expr.c:316-397 | Afterwards no reachable && or \|\| has a constant operand; if there was one the tree is strictly smaller, otherwise it is unchanged. This is what makes the loop of `expr_eliminate_dups` end. |
| ExprEquality.EliminateEq | ysyx-workbench/nemu/tools/kconfig/expr.c:221-242 | The mutual recursion with `expr_eq` terminates and never grows either expression. |
| ExprEquality.LeavesShareContext | ysyx-workbench/nemu/tools/kconfig/expr.c:150-203 | What `__expr_eliminate_eq` removes from both expressions is one common context, so each value is that of the rest put into the same context. |
| ExprEquality.EliminateEqShareContext | ysyx-workbench/nemu/tools/kconfig/expr.c:221-242 | The same for the whole of `expr_eliminate_eq`: one monotone context of two levels, shared by both expressions. |
| ExprEquality.ExprEqSound | ysyx-workbench/nemu/tools/kconfig/expr.c:252-303 | If `expr_eq` answers true, the two expressions have equal values under every valuation. |
| ExprEquality.ExprEqPtrSound | ysyx-workbench/nemu/tools/kconfig/expr.c:252-260 | The same with missing expressions, which stand for y. |
| ExprEquality.CommonOperandsRemoved | ysyx-workbench/nemu/tools/kconfig/expr.c:150-203 | On two regions of literals exactly the common operands, counted with multiplicity, become units. |
| ExprEquality.EliminateEqExact | ysyx-workbench/nemu/tools/kconfig/expr.c:221-242 | The whole elimination of two expressions, one of them a region and the other a region or a literal, leaves exactly the operands of each that the other does not have, and no constants. |
| ExprEquality.ExprEqIffSameOperands | ysyx-workbench/nemu/tools/kconfig/expr.c:252-303 | `expr_eq` of two && (or two \|\|) of literals holds if and only if their multisets of operands are equal. |
| ExprEquality.RepeatedOperandIsNotEqual | ysyx-workbench/nemu/tools/kconfig/expr.c:246-303 | A concrete pair with the same set of operands, one repeated, that `expr_eq` tells apart although the comment above it speaks of sets. |
| ExprReflexive.ExprEqReflexive | ysyx-workbench/nemu/tools/kconfig/expr.c:252-303 | `expr_eq` holds of every expression and itself, with constants, repeated operands and nested regions of any shape. |
| ExprReflexive.RegionMet | ysyx-workbench/nemu/tools/kconfig/expr.c:150-203 | Comparing a region with its own copy, `__expr_eliminate_eq` pairs each operand with itself: all become units but the constants. |
| ExprJoin.JoinOrSound | ysyx-workbench/nemu/tools/kconfig/expr.c:431-493 | A joined disjunction has the maximum of the two values. |
| ExprJoin.JoinAndSound | ysyx-workbench/nemu/tools/kconfig/expr.c:495-587 | A joined conjunction has the minimum of the two values, when no tristate symbol equals two different constants. |
| ExprJoin.JoinAndExact | ysyx-workbench/nemu/tools/kconfig/expr.c:495-587 | `expr_join_and` keeps the value of every pair of expressions if and only if the valuation separates constants. |
| ExprJoin.NumericConstant | ysyx-workbench/nemu/tools/kconfig/expr.c:539-552 | A valuation that does not: constants compare by number, so a tristate that is y also equals the constant 2, and the joined expression is y where the conjunction is n. |
| ExprJoin.JoinAndComplete | ysyx-workbench/nemu/tools/kconfig/expr.c:495-587 | Nothing that could be joined is missed in a conjunction: if the conjunction of two tests of a tristate symbol says the same as one test of it, the two are joined to such an expression. |
| ExprJoin.JoinOrOfTests | ysyx-workbench/nemu/tools/kconfig/expr.c:431-493 | In a disjunction exactly two tests for equality are joined. |
| ExprJoin.JoinOrIncomplete | ysyx-workbench/nemu/tools/kconfig/expr.c:431-493 | So the disjunction of `a` and `a=y` stays, although it says the same as `a`. |
| ExprJoin.JoinOrOfBool | ysyx-workbench/nemu/tools/kconfig/expr.c:431-493 | For a bool exactly the symbol and its negation are joined, to y. |
| ExprJoin.JoinAndOfBool | ysyx-workbench/nemu/tools/kconfig/expr.c:495-587 | Of two different tests of one bool, a conjunction joins exactly the symbol itself with a test that it is y, not n or not m. |
| ExprJoin.JoinEqual | ysyx-workbench/nemu/tools/kconfig/expr.c:431-587 | Expressions that `expr_eq` holds of are always joined, to the first of them, whatever their type. |
| ExprJoin.OnlyIsProducible | ysyx-workbench/nemu/tools/kconfig/expr.c:431-587 | Every value of every symbol occurs in a valuation that meets the assumptions. |
| ExprJoin.JoinWithShrinks | ysyx-workbench/nemu/tools/kconfig/expr.c:431-587 | The joined expression is no larger than the first operand, the one replaced by a unit. |
| ExprSlots.OperandContext | ysyx-workbench/nemu/tools/kconfig/expr.c:596-662 | Replacing the operand in a slot of a region: the region's value is the operand's value combined with a rest that does not depend on it. |
| ExprSlots.JoinedOperands | ysyx-workbench/nemu/tools/kconfig/expr.c:596-662 | Putting a unit in one slot and the joined expression in the other keeps the region's value. |
| DupsHeap.EliminateDups1 | ysyx-workbench/nemu/tools/kconfig/expr.c:596-651 | On linked nodes, through two pointers to pointers into one and the same tree: the value is kept under every valuation, the nodes of the spine stay where they are, so that the slots still to be visited stay valid, the counter tells exactly whether something joined, a walk that joins nothing has compared every pair of operands, and exactly the nodes of the result are live. |
| DupsHeap.JoinNodes | ysyx-workbench/nemu/tools/kconfig/expr.c:431-587 | The joined expression in new nodes, or none, as the join functions say; existing nodes are not changed. |
| DupsHeap.ReplaceLeaves | ysyx-workbench/nemu/tools/kconfig/expr.c:628-647 | Both leaves are freed and their slots written, although the slots are in one tree. |
| DupsHeap.EliminateDups | ysyx-workbench/nemu/tools/kconfig/expr.c:664-686 | The loop ends; the final tree has the original value under every valuation, is no larger, in no region of it are two operands equal under `expr_eq` and no literal occurs twice, no two operands join any more, exactly its nodes are live, and the global counter is restored. |
| ExprDups.WholeRegionSettled | ysyx-workbench/nemu/tools/kconfig/expr.c:664-686 | A full walk without a join means that no two operands at the top level join. |
| ExprDups.SettledDeduplicates | ysyx-workbench/nemu/tools/kconfig/expr.c:664-686 | Where no two operands of a region join, no two of them are equal under `expr_eq`, junctions included. |
| ExprDups.DeduplicatedOnce | ysyx-workbench/nemu/tools/kconfig/expr.c:664-686 | Then no literal occurs twice among the operands of any region, whatever its type. |
| ExprHeap.Store.EliminateYnInPlace | ysyx-workbench/nemu/tools/kconfig/expr.c:316-397 | On linked nodes, overwriting and freeing: the node then holds what constant elimination gives, and exactly its nodes are live. |
| ExprHeap.Store.EliminateEqLeavesInPlace | ysyx-workbench/nemu/tools/kconfig/expr.c:150-203 | On linked nodes: both trees become what `EliminateEqLeaves` gives, stay separate, nothing is freed twice and nothing leaks. |
| ExprHeap.Store.EliminateEqInPlace | ysyx-workbench/nemu/tools/kconfig/expr.c:221-242 | The same for the whole elimination. |
| ExprHeap.Store.ExprEqNodes | ysyx-workbench/nemu/tools/kconfig/expr.c:252-303 | `expr_eq` works on copies: whatever nodes its arguments share, it answers as the function does, changes no existing node, frees every copy and restores the counter. |
| ExprHeap.Store.Copy | ysyx-workbench/nemu/tools/kconfig/expr.c:66-105 | A copy is the same expression in new nodes, even when the original shares nodes. |
| ExprHeap.Store.FreeAll | ysyx-workbench/nemu/tools/kconfig/expr.c:107-135 | Every node of a tree is freed once. |
| ExprHeap.Store.TransformInPlace | ysyx-workbench/nemu/tools/kconfig/expr.c:694-849 | On linked nodes, reusing and freeing them: the result holds the transformed expression, and exactly its nodes are live. |
| ExprHeap.Store.DeMorgan | ysyx-workbench/nemu/tools/kconfig/expr.c:794-811 | The rewriting of a negated && or \|\| in place. |
| ExprTransform.TransformPreservesValue | ysyx-workbench/nemu/tools/kconfig/expr.c:694-849 | `expr_transform` keeps the value under every valuation. |
| ExprTransform.TransformNormalizes | ysyx-workbench/nemu/tools/kconfig/expr.c:694-849 | The result is in negation normal form: each NOT sits on a non-constant symbol, and no bool is tested for = or != against n, m or y. |
| ExprTransform.Transform | ysyx-workbench/nemu/tools/kconfig/expr.c:694-849 | The transformation terminates although De Morgan results are transformed again: a weight never increases. |
| ExprTransform.TransformIdempotent | ysyx-workbench/nemu/tools/kconfig/expr.c:694-849 | Transforming twice is transforming once. |
| MenuDependency.UncontainedIrrelevant | ysyx-workbench/nemu/tools/kconfig/expr.c:851-877 | If `expr_contains_symbol` answers no, the value does not depend on the symbol. |
| MenuDependency.DependsMeansBounded | ysyx-workbench/nemu/tools/kconfig/expr.c:879-914 | If `expr_depends_symbol` answers yes, the expression is n whenever the symbol is n. |
| MenuDependency.TransCompareCollapses | ysyx-workbench/nemu/tools/kconfig/expr.c:922-985 | What inserting comparisons with n computes, exactly and for every expression: the value when each symbol counts as y unless it compares equal to n. |
| MenuDependency.CollapseIsNotNo | ysyx-workbench/nemu/tools/kconfig/expr.c:922-985 | If negated parts are n or y and no string symbol stands alone, that value is y exactly when the expression is not n. |
| MenuDependency.NegatedSymbolExact | ysyx-workbench/nemu/tools/kconfig/expr.c:953-954 | For a negated symbol the inserted comparison says whether the negation is not n if and only if the symbol is not m. |
| MenuDependency.SupersetImpliesBelow | ysyx-workbench/nemu/tools/kconfig/menu.c:480-491 | If eliminating what is common leaves y of the second expression, the first is at most the second under every valuation. |
| MenuDependency.SupersetExact | ysyx-workbench/nemu/tools/kconfig/menu.c:480-491 | For conjunctions of literals the test finds a superset exactly if every operand of the second occurs in the first as often; but two single literals are never compared. |
| MenuDependency.SingleLiteralMissed | ysyx-workbench/nemu/tools/kconfig/menu.c:480-491 | So a literal is not found to be a superset of itself. |
| MenuDependency.ComparedToNoExact | ysyx-workbench/nemu/tools/kconfig/menu.c:456-458 | The prepared expression has the collapsed value, so it says whether the original is not n exactly where collapsing is faithful; two-valued negations suffice. |
| MenuDependency.Normalized | ysyx-workbench/nemu/tools/kconfig/menu.c:456-458 | The three rewriting calls, in new nodes, keep the value and leave nothing to join. |
| MenuDependency.IsSuperset | ysyx-workbench/nemu/tools/kconfig/menu.c:483-491 | The comparison uses up the first expression and a copy of the second. |
| MenuDependency.BelongsUnder | ysyx-workbench/nemu/tools/kconfig/menu.c:454-496 | The test for automatic submenus: an entry is nested exactly if it contains the symbol and either depends on it or its prepared expression is found to be a superset; then it is n whenever the symbol is, or, in the second case, its collapsed value is at most that of the base dependency, under every valuation. All nodes allocated for the test are freed. |
| MenuDependency.SupersetTransfers | ysyx-workbench/nemu/tools/kconfig/menu.c:471-491 | Where collapsing is faithful for both, a nested entry is off whenever the base dependency is. |
| MenuDependency.NegatedTristateNested | ysyx-workbench/nemu/tools/kconfig/menu.c:471-491 | Elsewhere it need not be: a dependency on two negated tristates passes the test, and is m where the base dependency is n. |
| MenuDependency.RewriteMLimitsM | ysyx-workbench/nemu/tools/kconfig/menu.c:82-105 | Replacing m by m && MODULES evaluates the expression with m lowered to the value of MODULES. |
| MenuDependency.PassDown | ysyx-workbench/nemu/tools/kconfig/menu.c:351-360 | An entry's dependency becomes, in new nodes, the minimum of the parent's and its own (with m limited by MODULES) under every valuation, and nothing in it joins any more. |
| MenuTree.Finalize | ysyx-workbench/nemu/tools/kconfig/menu.c:306-585 | On the heap of `next`, `list` and `parent` pointers, for any outcome of the tests: the preorder of the entries is unchanged, every entry occurs once, every parent pointer names the owner. An entry without a list takes in its siblings exactly as long as the test succeeds, and nothing if it has no symbol; the same law says which submenus there are everywhere below, and every entry then belongs to the nearest one around it that has a prompt. The tree is the one that the recursive definition gives. |
| MenuTree.GroupingUnique | ysyx-workbench/nemu/tools/kconfig/menu.c:433-503 | The laws of automatic submenus leave only one way to group a list, so they determine the result. |
| MenuTree.FinArranged | ysyx-workbench/nemu/tools/kconfig/menu.c:306-585 | The recursive definition obeys the laws of grouping and of moving up. |
| MenuTree.FinMakesSubmenu | ysyx-workbench/nemu/tools/kconfig/menu.c:433-503 | What an entry without a list becomes: its submenu starts with the next sibling exactly if that belongs to it, and the entry that follows it then does not belong to it. |
| MenuTree.AbsorbedMaximal | ysyx-workbench/nemu/tools/kconfig/menu.c:460-503 | In that definition the automatic submenu takes siblings as long as the test succeeds and no further. |
| MenuTree.FinalizeChildren | ysyx-workbench/nemu/tools/kconfig/menu.c:427-432 | The recursion over the children keeps order and parents, and leaves flat lists below every child. |
| MenuTree.AbsorbSiblings | ysyx-workbench/nemu/tools/kconfig/menu.c:456-503 | Automatic submenu creation: the following siblings, each finalized first, become the list as long as the test succeeds; order and parents are kept. |
| MenuTree.FlattenChildren | ysyx-workbench/nemu/tools/kconfig/menu.c:506-583 | Flattening: entries without a prompt hand their children to the enclosing list, in order, the children being looked at in turn. |
| MenuTree.Splice | ysyx-workbench/nemu/tools/kconfig/menu.c:575-583 | One flattening step relinks the children behind their former parent and gives them its parent. |
| MenuTree.SplicedOrder | ysyx-workbench/nemu/tools/kconfig/menu.c:575-583 | Moving a list up behind its owner keeps the preorder. |
| MenuTree.AbsorbOrder | ysyx-workbench/nemu/tools/kconfig/menu.c:498-502 | Cutting a sibling list in two keeps the preorder. |
| MenuWalk.Advance | ysyx-workbench/nemu/tools/kconfig/confdata.c:805-817 | One step of the walk without a stack goes to the entry that follows in preorder. |
| MenuWalk.VisitAll | ysyx-workbench/nemu/tools/kconfig/confdata.c:868-912 | The walk ends and visits every entry below the root once, in preorder. |
| MenuWalk.FinalizeKeepsWalk | ysyx-workbench/nemu/tools/kconfig/confdata.c:764-818 | The entries are written in the same order before and after `menu_finalize`. |
| DependencyCheck.Checker.CheckDeps | ysyx-workbench/nemu/tools/kconfig/symbol.c:1250-1279 | One check: the flags are as before except that more symbols are checked, a non-NULL answer is a symbol that depends on itself, and after a NULL answer (with no cycle found so far) the symbol and all it needs are ordered without a cycle. |
| DependencyCheck.Checker.CheckExprDeps | ysyx-workbench/nemu/tools/kconfig/symbol.c:1130-1162 | The walk over an expression looks at every symbol in it unless it stops at a cycle. |
| DependencyCheck.Checker.CheckSymDeps | ysyx-workbench/nemu/tools/kconfig/symbol.c:1165-1211 | All direct, reverse, weak and property dependencies of a symbol are looked at; the check stack is restored. |
| DependencyCheck.EdgeExact | ysyx-workbench/nemu/tools/kconfig/symbol.c:1165-1211 | One symbol depends on another if and only if that occurs in its direct, reverse or implied dependency, in the condition of a property that neither selects, implies nor makes a choice, or in the value of a default. |
| DependencyCheck.Checker.CheckAll | ysyx-workbench/nemu/tools/kconfig/parser.y:514-517 | Checking all symbols from clear flags reports an error if and only if the dependency graph has a cycle, and leaves no symbol flagged as being checked; without an error the symbols were finished in an order in which each comes after all it depends on. |
| DependencyRank.CheckConfiguration | ysyx-workbench/nemu/tools/kconfig/parser.y:514-517 | If checking the dependencies of a configuration reports nothing, there is a ranking under which every symbol needs only symbols of lower rank: the assumption under which values are defined. |
| DependencyRank.OrderedIsAcyclic | ysyx-workbench/nemu/tools/kconfig/symbol.c:1250-1279 | The order in which the checks end is such a ranking. |
| DependencyCheck.OrderedMeansAcyclic | ysyx-workbench/nemu/tools/kconfig/symbol.c:1250-1279 | If every symbol comes after its dependencies in some order, there is no cycle. |
| DependencyCheck.PathCloses | ysyx-workbench/nemu/tools/kconfig/symbol.c:1255-1258 | Meeting a symbol that is being checked closes a cycle through it. |
| SymbolEvaluator.Evaluator.CalcValue | ysyx-workbench/nemu/tools/kconfig/symbol.c:325-467 | The memoised calculation: the symbol becomes valid, every valid symbol has the fields of the plain recursive definition, and symbols whose calculation is still going on are not touched. |
| SymbolEvaluator.Evaluator.CalcExpr | ysyx-workbench/nemu/tools/kconfig/expr.c:1030-1102 | An expression's value is that of the recursive definition. |
| SymbolEvaluator.Evaluator.CalcVisibility | ysyx-workbench/nemu/tools/kconfig/symbol.c:177-238 | Visibility and the three kinds of dependencies are those of the definition, including the rounding of m. |
| SymbolEvaluator.Evaluator.CalcTristate | ysyx-workbench/nemu/tools/kconfig/symbol.c:373-415 | The new value and the write flag, through user value, default, implied and reverse dependencies. |
| SymbolEvaluator.Evaluator.FindDefault | ysyx-workbench/nemu/tools/kconfig/symbol.c:83-93 | The first default whose condition is not n, as in the definition. |
| SymbolEvaluator.Evaluator.Request | ysyx-workbench/nemu/tools/kconfig/symbol.c:325-467 | Whatever symbols are requested in whatever order, each gets the value of the definition, and its fields obey the laws of visibility, defaults, select and imply under every valuation made of the symbols' values. |
| SymbolLaws.SymbolLawful | ysyx-workbench/nemu/tools/kconfig/symbol.c:325-467 | The laws of a bool or tristate: the value is never below the reverse dependency; with no user value it is the rounded maximum of that and the first default whose condition is not n, or with an implied dependency lies between that and the looser of direct and reverse dependency; a user value counts, up to the visibility, if the symbol is visible. |
| SymbolLaws.LawsDetermine | ysyx-workbench/nemu/tools/kconfig/symbol.c:325-467 | On an acyclic graph only one assignment of values to all symbols obeys the laws, the calculated one. |
| SymbolValues.RankIrrelevant | ysyx-workbench/nemu/tools/kconfig/symbol.c:325-467 | The recursive definition does not depend on the ranking that shows the graph acyclic. |
| SymbolValues.ExprValIsValue | ysyx-workbench/nemu/tools/kconfig/expr.c:1030-1102 | The recursive value of an expression is its ordinary value under the calculated values of its symbols, the meaning that the rewriting theorems preserve. |
| SymbolValues.SameSym | ysyx-workbench/nemu/tools/kconfig/symbol.c:325-467 | A symbol's calculated fields depend only on the definitions and on user values of symbols of at most its rank. |
| SymbolValues.StoredValue | ysyx-workbench/nemu/tools/kconfig/symbol.c:480-533 | For a visible symbol, a stored user value is the next calculated value if and only if it lies between the reverse dependency and the looser of visibility and reverse dependency and is no m of a bool; every accepted value is. |
| SymbolEvaluator.Evaluator.SetTristateValue | ysyx-workbench/nemu/tools/kconfig/symbol.c:499-533 | When a value is accepted, what is stored, and that all symbols then await recalculation unless the value is the current one. |
| SymbolEvaluator.Evaluator.StoreAndCalculate | ysyx-workbench/nemu/tools/kconfig/symbol.c:480-533 | A value accepted as within range and stored is what the next calculation delivers. |
| StringEscape.Escape | ysyx-workbench/nemu/tools/kconfig/symbol.c:875-916 | The quoted string has a backslash before every quote and backslash and fills exactly the allocated length. |
| StringEscape.Unescape | ysyx-workbench/nemu/tools/kconfig/confdata.c:261-276 | In-place unescaping of any line delivers the text up to the first unprotected quote, or says that the line is not quoted or has no closing quote; the cursor leaves the NUL-terminated line if and only if the line is quoted and ends in an unprotected backslash before any closing quote. |
| StringEscape.UnescapedEscaped | ysyx-workbench/nemu/tools/kconfig/confdata.c:261-276 | Reading back a quoted string gives the string, whatever follows on the line. |
| StringEscape.WriteAndRead | ysyx-workbench/nemu/tools/kconfig/confdata.c:261-276 | The round trip through both procedures. |
| MinirvView.RunIsExec | ysyx-workbench/abstract-machine/tools/minirv/inst-replace.h:1-37 | The macros' own view (registers, seven words below the stack pointer, scratch array, the rest) computes what the machine of eight instructions does to its memory. |
| MinirvLut.GenerateLut | ysyx-workbench/abstract-machine/tools/minirv/gen-lut.c:10-27 | Loading the generated file at its label puts the six tables where the macros look for them. |
| MinirvRuns.NotRuns | ysyx-workbench/abstract-machine/tools/minirv/inst-replace.h:629-657 | `not` complements; only `rd`, `tp` and three stack words change, `gp` is given back. |
| MinirvRuns.SubRuns | ysyx-workbench/abstract-machine/tools/minirv/inst-replace.h:110-115 | `sub` is subtraction modulo 2^32. |
| MinirvRuns.MsbRuns | ysyx-workbench/abstract-machine/tools/minirv/inst-replace.h:122-126 | `msb` delivers the sign bit. |
| MinirvRuns.SltTemplateRuns | ysyx-workbench/abstract-machine/tools/minirv/inst-replace.h:128-153 | The comparison template looks up the entry of three sign bits; `s0` and `s1` are given back. |
| Rv32iValues.SignsDecide | ysyx-workbench/abstract-machine/tools/minirv/inst-replace.h:48-63 | The three sign bits decide signed and unsigned comparison, as the two tables say. |
| MinirvRuns.LogicRuns | ysyx-workbench/abstract-machine/tools/minirv/inst-replace.h:165-200 | `and`, `or` and `xor` through byte tables, for all operands the macro does not abort on. |
| MinirvRuns.SeqRuns | ysyx-workbench/abstract-machine/tools/minirv/inst-replace.h:213-247 | The equality test with an uninitialised scratch array is right whatever the array holds. |
| MinirvRuns.SeqzRuns | ysyx-workbench/abstract-machine/tools/minirv/inst-replace.h:249-272 | `seqz` is right when its destination is neither `s0` nor `sp`. |
| MinirvRuns.SeqzExact | ysyx-workbench/abstract-machine/tools/minirv/inst-replace.h:249-272 | `seqz` is right in every state if and only if its destination is neither `s0`, which it overwrites afterwards, nor `sp`. |
| MinirvAccess.BranchBitRuns | ysyx-workbench/abstract-machine/tools/minirv/inst-replace.h:299-382 | The bit computed before a branch, with its polarity, says whether the branch is taken, for all six conditions and the special cases for `x0`. |
| MinirvAccess.BranchResolveRuns | ysyx-workbench/abstract-machine/tools/minirv/inst-replace.h:277-294 | `branch_resolve` leaves the address of the target or of the next instruction in `tp`. |
| MinirvShifts.SllRuns | ysyx-workbench/abstract-machine/tools/minirv/inst-replace.h:384-430 | `sll` shifts left by the low five bits of `rs2`. |
| ShiftBytes.GatheredIsShift | ysyx-workbench/abstract-machine/tools/minirv/inst-replace.h:399-430 | Adding up the four looked-up words is the left shift modulo 2^32. |
| MinirvShifts.ShiftRightRuns | ysyx-workbench/abstract-machine/tools/minirv/inst-replace.h:432-524 | `srl`, `sra`, `srli`, `srai`, including the shortcut for a constant 24. |
| ShiftBytes.ThreeBytes | ysyx-workbench/abstract-machine/tools/minirv/inst-replace.h:463-495 | The additions marked as free of carries are: bytes shifted in place share no bit. |
| ShiftBytes.CollectedIsShift | ysyx-workbench/abstract-machine/tools/minirv/inst-replace.h:475-502 | The word collected byte by byte is the shifted lower part. |
| ShiftBytes.SraFromBytes | ysyx-workbench/abstract-machine/tools/minirv/inst-replace.h:463-512 | The arithmetic shift of the top byte plus the shifted lower part is the arithmetic shift of the word. |
| MinirvAccess.SlliRuns | ysyx-workbench/abstract-machine/tools/minirv/inst-replace.h:526-552 | `slli` by 0 to 31, along all its branches. |
| MinirvAccess.LoadSignedByteRuns | ysyx-workbench/abstract-machine/tools/minirv/inst-replace.h:570-576 | `lb` loads and sign-extends, for every destination other than `sp`. |
| MinirvAccess.LoadSignedByteExact | ysyx-workbench/abstract-machine/tools/minirv/inst-replace.h:570-576 | `lb` is right in every state and for every address if and only if its destination is not `sp`. |
| MinirvAccess.LoadSignedByteIntoSp | ysyx-workbench/abstract-machine/tools/minirv/inst-replace.h:570-576 | Into `sp`, a byte that is no multiple of 4 makes the reload misaligned. |
| MinirvAccess.LoadHalfRuns | ysyx-workbench/abstract-machine/tools/minirv/inst-replace.h:578-585 | `lhu` joins two bytes. |
| MinirvAccess.LoadSignedHalfRuns | ysyx-workbench/abstract-machine/tools/minirv/inst-replace.h:587-595 | `lh` joins two bytes and sign-extends. |
| MinirvAccess.StoreHalfRuns | ysyx-workbench/abstract-machine/tools/minirv/inst-replace.h:597-601 | `sh` stores two bytes. |
| MinirvSimulation.AluRuns | ysyx-workbench/abstract-machine/tools/minirv/inst-replace.h:110-524 | Every register operation: `rd` gets the value of sections 2.4 and 2.5 of the RISC-V unprivileged manual; apart from `tp`, `gp`, the words below `sp` and the scratch array nothing changes. |
| MinirvSimulation.AluImmRuns | ysyx-workbench/abstract-machine/tools/minirv/inst-replace.h:80-85 | The immediate forms, with the immediate sign-extended through `tp`. |
| MinirvSimulation.OperationPerforms | ysyx-workbench/abstract-machine/tools/minirv/inst-replace.h:110-601 | Every operation that falls through does to registers and memory what its definition says. |
| MinirvProgram.LengthFixed | ysyx-workbench/abstract-machine/tools/minirv/inst-replace.h:277-294 | The length of an expansion does not depend on the addresses in it, so a layout exists. |
| Rv32iLaws.SubtractionLaw | ysyx-workbench/abstract-machine/tools/minirv/inst-replace.h:110-115 | What `sub` delivers, added to the subtrahend, gives the minuend modulo 2^32. |
| Rv32iLaws.UpperLaw | ysyx-workbench/abstract-machine/tools/minirv/inst-replace.h:605-608 | `lui` puts its operand into the upper 20 bits, modulo 2^32. |
| Rv32iLaws.SetLessThanLaw | ysyx-workbench/abstract-machine/tools/minirv/inst-replace.h:128-163 | Signed order is unsigned order of words raised by 2^31. |
| Rv32iLaws.BitwiseLaw | ysyx-workbench/abstract-machine/tools/minirv/inst-replace.h:165-200 | Every bit of `and`, `or` and `xor`. |
| Rv32iLaws.LogicalShiftLaw | ysyx-workbench/abstract-machine/tools/minirv/inst-replace.h:384-563 | Shifts multiply modulo 2^32 and divide by a power of two, whose exponent is the low five bits of the amount. |
| Rv32iLaws.ArithmeticShiftLaw | ysyx-workbench/abstract-machine/tools/minirv/inst-replace.h:432-563 | The arithmetic shift divides the signed value, rounding down. |
| Rv32iLaws.BranchLaw | ysyx-workbench/abstract-machine/tools/minirv/inst-replace.h:299-382 | The six branch conditions: opposite pairs, equality by a zero difference, signed order by raised words. |
| Rv32iLaws.SignExtendBits | ysyx-workbench/abstract-machine/tools/minirv/inst-replace.h:570-595 | Sign extension copies the top bit of the field into every higher bit. |
| Rv32iLaws.StoredHalfLoads | ysyx-workbench/abstract-machine/tools/minirv/inst-replace.h:578-601 | A half word stored is loaded back modulo 2^16, whatever registers are used. |
| Rv32iLaws.StoredWordLoads | ysyx-workbench/abstract-machine/tools/minirv/inst-replace.h:165-211 | A word stored is loaded back, as a word and byte by byte with the lowest byte first, which is how the byte-wise macros take words apart. |
| MinirvSimulation.StepSimulated | ysyx-workbench/abstract-machine/tools/minirv/inst-replace.h:97-601 | One operation of a program, jumps and branches included, is matched by steps of its expanded image. |
| MinirvSimulation.RunSimulated | ysyx-workbench/abstract-machine/tools/minirv/inst-replace.h:97-601 | Every finite run of every program of supported operations is matched by a run of the expanded image: same registers except `tp` and `gp`, same defined memory, same place in the program, and no misaligned access of its own. |
| BitCounts.ClzSi2 | ysyx-workbench/abstract-machine/klib/src/int64.c:626-655 | The masked halving steps count the leading zeros of a nonzero word. |
| BitCounts.CtzSi2 | ysyx-workbench/abstract-machine/klib/src/int64.c:661-699 | The masked halving steps count the trailing zeros of a nonzero word. |
| BitCounts.CtzDi2 | ysyx-workbench/abstract-machine/klib/src/int64.c:703-709 | Trailing zeros of a nonzero double word. |
| BitCounts.ClzDi2 | ysyx-workbench/abstract-machine/klib/src/int64.c:711-717 | Leading zeros of a nonzero double word. |
| Division64.Iterate | ysyx-workbench/abstract-machine/klib/src/int64.c:598-614 | One round of the branch-free loop keeps the quotient and remainder invariant and the remainder below the divisor. |
| Division64.SignTestExact | ysyx-workbench/abstract-machine/klib/src/int64.c:605-613 | The shifted remainder fits in 64 bits, and the sign of `d - r - 1` tells exactly whether the divisor fits once more. |
| Division64.ShiftSubtract | ysyx-workbench/abstract-machine/klib/src/int64.c:597-619 | The loop delivers quotient and remainder. |
| Division64.Position | ysyx-workbench/abstract-machine/klib/src/int64.c:499-593 | The two words are placed so that quotient and remainder start as shifted parts of the dividend, in all three ranges of the shift. |
| Division64.DivideByHighWord | ysyx-workbench/abstract-machine/klib/src/int64.c:446-507 | The branch for a divisor whose low word is zero. |
| Division64.DivideByLowWord | ysyx-workbench/abstract-machine/klib/src/int64.c:508-558 | The branch for a divisor whose high word is zero. |
| Division64.DivideByBothWords | ysyx-workbench/abstract-machine/klib/src/int64.c:559-593 | The branch for a divisor with both words. |
| Division64.UDivModDi4 | ysyx-workbench/abstract-machine/klib/src/int64.c:413-620 | For every 64-bit `a` and nonzero `b`, on every path: `a == q * b + r` and `r < b`. |
| Division64.DivDi3 | ysyx-workbench/abstract-machine/klib/src/int64.c:356-366 | Signed division truncates toward zero; the one quotient that does not fit wraps. |
| Division64.ModDi3 | ysyx-workbench/abstract-machine/klib/src/int64.c:380-390 | Signed remainder, with the sign of the dividend, without exception. |
| Division64.DivModDi4 | ysyx-workbench/abstract-machine/klib/src/int64.c:370-376 | Quotient and remainder together. |
| Division64.TruncationLaw | ysyx-workbench/abstract-machine/klib/src/int64.c:356-390 | Truncated quotient and remainder multiply back to the dividend, the remainder is smaller than the divisor and takes the dividend's sign. |
| CoreData.CoreResults.CalcFunc | ysyx-workbench/am-kernels/benchmarks/coremark/src/core_list_join.c:63-95 | A cached value is taken from the low byte and nothing changes. Otherwise bits 0 to 2 choose the state machine, the matrix or the data itself, the input is bits 3 to 6 twice; the low seven bits of the answer are returned and cached, the high byte stays, and the checksum takes in the whole answer. |
| CoreData.CalculatedOnce | ysyx-workbench/am-kernels/benchmarks/coremark/src/core_list_join.c:63-95 | Calculating again gives the same value and changes nothing. |
| CoreData.ComplexSettles | ysyx-workbench/am-kernels/benchmarks/coremark/src/core_list_join.c:101-105 | A complex comparison answers by the values that both entries have cached from then on; it changes no high byte and no cached value. |
| CoreData.IndexRebuilds | ysyx-workbench/am-kernels/benchmarks/coremark/src/core_list_join.c:112-118 | A comparison by index rebuilds the low bytes of both entries from their high bytes and spoils no other. |
| CoreData.Rebuilt | ysyx-workbench/am-kernels/benchmarks/coremark/src/core_list_join.c:114-115 | Rebuilding changes nothing if and only if the two bytes agree. |
| CoreList.MergeSort | ysyx-workbench/am-kernels/benchmarks/coremark/src/core_list_join.c:426-496 | On the heap list: nodes and entries end exactly as the pure bottom-up sort says, for each comparator, including the one that caches values in the entries and the one that rebuilds them, and for any other whose answers may depend on the comparisons before. |
| CoreList.MergePass | ysyx-workbench/am-kernels/benchmarks/coremark/src/core_list_join.c:433-487 | One pass over runs of a given length relinks the list into the pure pass. |
| CoreList.MergeRuns | ysyx-workbench/am-kernels/benchmarks/coremark/src/core_list_join.c:450-478 | Merging two neighbouring runs by relinking. |
| StableMerge.SortPermutes | ysyx-workbench/am-kernels/benchmarks/coremark/src/core_list_join.c:426-496 | The sort is a permutation for any comparator, whatever state it keeps. |
| StableMerge.SortIsStableSort | ysyx-workbench/am-kernels/benchmarks/coremark/src/core_list_join.c:426-496 | For a comparator that implements a total preorder the result is sorted, a permutation, and stable. |
| StableMerge.PassMergesRuns | ysyx-workbench/am-kernels/benchmarks/coremark/src/core_list_join.c:426-496 | A pass turns sorted runs of one length into sorted runs of twice the length. |
| StableMerge.EveryElementCompared | ysyx-workbench/am-kernels/benchmarks/coremark/src/core_list_join.c:426-496 | Sorting two or more elements compares every one of them at least once. |
| StableMerge.SortByOutcome | ysyx-workbench/am-kernels/benchmarks/coremark/src/core_list_join.c:426-496 | A comparator that settles an element's rank when it first looks at it sorts stably by the ranks settled in the end. |
| CoreBench.ComplexSortsByResult | ysyx-workbench/am-kernels/benchmarks/coremark/src/core_list_join.c:101-105 | The sort with `cmp_complex` is the stable sort by the values cached when it is done; all entries then have a cached value, and no high byte has changed. |
| CoreList.Find | ysyx-workbench/am-kernels/benchmarks/coremark/src/core_list_join.c:370-386 | The first entry that matches by index, or by low data byte, or NULL. |
| CoreList.Reverse | ysyx-workbench/am-kernels/benchmarks/coremark/src/core_list_join.c:395-406 | In-place reversal. |
| CoreList.Splice | ysyx-workbench/am-kernels/benchmarks/coremark/src/core_list_join.c:156-162 | Moving the entry behind a found one relinks the list accordingly. |
| CoreList.Remove | ysyx-workbench/am-kernels/benchmarks/coremark/src/core_list_join.c:316-327 | Removal swaps the information of two nodes and unlinks one. |
| CoreList.UndoRemove | ysyx-workbench/am-kernels/benchmarks/coremark/src/core_list_join.c:345-356 | Undoing a removal restores nodes and information. |
| CoreBench.FindRound | ysyx-workbench/am-kernels/benchmarks/coremark/src/core_list_join.c:143-166 | One find with its tally: the list is reversed and the node behind the found one moves to the second place. |
| CoreBench.RoundsPermute | ysyx-workbench/am-kernels/benchmarks/coremark/src/core_list_join.c:143-166 | Any mix of finds, reversals and splices permutes the list. |
| CoreBench.RemoveAndRestore | ysyx-workbench/am-kernels/benchmarks/coremark/src/core_list_join.c:174-186 | Removal, search, checksum and undoing: the checksum is over the shortened list, and the list is as before. |
| CoreBench.SortByIndexRestores | ysyx-workbench/am-kernels/benchmarks/coremark/src/core_list_join.c:187-188 | Sorting any permutation of a list with increasing indexes by index restores it and rebuilds the low byte of every entry. |
| CoreBench.BenchRestores | ysyx-workbench/am-kernels/benchmarks/coremark/src/core_list_join.c:132-199 | The whole step ends with the original order, and every entry's data is its high byte twice. |
| CoreBench.BenchRestoresDataExactly | ysyx-workbench/am-kernels/benchmarks/coremark/src/core_list_join.c:132-199 | So the data is restored if and only if both bytes of every entry agreed. |
| CoreBench.BenchList | ysyx-workbench/am-kernels/benchmarks/coremark/src/core_list_join.c:132-199 | On the heap, for any number of finds and any index: same nodes, order and information, the data as above, and checksum, counters and results as the definition on sequences gives, whose laws `CoreBenchLaws.BenchLawful` states. |
| CoreBenchLaws.BenchLawful | ysyx-workbench/am-kernels/benchmarks/coremark/src/core_list_join.c:132-199 | Every step follows laws that name no function of the model: what each find meets, where each entry then stands, what it counts, which sort follows, how often each checksum takes in the first entry, and how the final value is made of them. |
| CoreBenchLaws.RoundLawful | ysyx-workbench/am-kernels/benchmarks/coremark/src/core_list_join.c:143-166 | One find: a miss reverses the list and counts bit 8 of its second entry, a hit counts bit 9 of odd data and also moves one entry to the second place. |
| Sha256Context.FillSchedule | ysyx-workbench/am-kernels/kernels/blockchain/src/sha256.cpp:32-37 | The message schedule of section 6.2.2 of FIPS 180-4. |
| Sha256Context.CompressBlock | ysyx-workbench/am-kernels/kernels/blockchain/src/sha256.cpp:23-58 | One block of `transform` is the compression function of the standard. |
| Sha256Context.Context.Transform | ysyx-workbench/am-kernels/kernels/blockchain/src/sha256.cpp:23-58 | Several blocks are absorbed in order. |
| Sha256Context.Context.Init | ysyx-workbench/am-kernels/kernels/blockchain/src/sha256.cpp:60-71 | The initial chaining words; nothing fed. |
| Sha256Context.Context.Update | ysyx-workbench/am-kernels/kernels/blockchain/src/sha256.cpp:73-93 | After every update the whole blocks fed are absorbed, the rest (less than 64 bytes) is buffered, and the counters agree with the bytes fed. |
| Sha256Context.Context.Pad | ysyx-workbench/am-kernels/kernels/blockchain/src/sha256.cpp:95-106 | The padded last block or blocks. |
| Sha256Context.Context.Final | ysyx-workbench/am-kernels/kernels/blockchain/src/sha256.cpp:95-111 | The digest of everything fed with the padding that `final` writes, which is the standard's digest for fewer than 2^29 bytes. |
| Sha256Context.StreamPaddingIsStandard | ysyx-workbench/am-kernels/kernels/blockchain/src/sha256.cpp:101-106 | The padding written is the standard's if and only if the message has fewer than 2^29 bytes. |
| Sha256Context.HashChunks | ysyx-workbench/am-kernels/kernels/blockchain/src/sha256.cpp:73-111 | Any chunking of a message shorter than 2^29 bytes gives the digest of FIPS 180-4 (sections 5.1.1, 5.3.3 and 6.2.2). |
| Sha256Standard.AbsorbConcat | ysyx-workbench/am-kernels/kernels/blockchain/src/sha256.cpp:23-58 | Absorbing whole blocks first and the rest later is absorbing everything. |
| Sha256Laws.ConstantsFromPrimes | ysyx-workbench/am-kernels/kernels/blockchain/src/sha256.cpp:4-21 | Each of the 64 round constants is the first 32 bits of the fraction of the cube root of the prime of that number (section 4.2.2 of FIPS 180-4). |
| Sha256Laws.InitialHashFromPrimes | ysyx-workbench/am-kernels/kernels/blockchain/src/sha256.cpp:60-71 | The initial words are those of the square roots of the first eight primes (section 5.3.3). |
| Sha256Laws.SigmaBits | ysyx-workbench/am-kernels/kernels/blockchain/include/sha256.h:29-36 | Which three bits make each bit of the four sigma functions. |
| Sha256Laws.ChBit | ysyx-workbench/am-kernels/kernels/blockchain/include/sha256.h:31 | `SHA2_CH` chooses bit by bit between two words. |
| Sha256Laws.MajBit | ysyx-workbench/am-kernels/kernels/blockchain/include/sha256.h:32 | `SHA2_MAJ` is the majority of three bits. |
| Sha256Laws.ScheduleRecurrence | ysyx-workbench/am-kernels/kernels/blockchain/src/sha256.cpp:35-37 | A later word of the schedule as a plain sum of four earlier ones modulo 2^32. |
| Sha256Laws.ScheduleStart | ysyx-workbench/am-kernels/kernels/blockchain/src/sha256.cpp:32-34 | The first sixteen words are the block read as big-endian numbers. |
| Sha256Laws.RoundWords | ysyx-workbench/am-kernels/kernels/blockchain/src/sha256.cpp:41-52 | A round moves six words along and computes two, as plain sums modulo 2^32. |
| Sha256Laws.CompressAdds | ysyx-workbench/am-kernels/kernels/blockchain/src/sha256.cpp:38-56 | After 64 rounds the words are added to those before. |
| Sha256Laws.OutputWords | ysyx-workbench/am-kernels/kernels/blockchain/include/sha256.h:37-42 | The digest is the eight words in big-endian bytes, in order. |
| Sha256Laws.PaddedMessage | ysyx-workbench/am-kernels/kernels/blockchain/src/sha256.cpp:95-106 | The padded message: whole blocks, as few as possible; the message, a 1 bit, zeros, and at the very end the bit length modulo 2^64. |
| SdbEval.Debugger.CheckParentheses | ysyx-workbench/nemu/src/monitor/sdb/expr.c:139-163 | Both answers for any stretch of tokens: badly nested or not, and enclosed in one matching pair or not. |
| SdbEval.Debugger.GetMainOp | ysyx-workbench/nemu/src/monitor/sdb/expr.c:183-213 | For any balanced stretch: the index the specified scan finds. |
| SdbGrammar.ScanFindsMain | ysyx-workbench/nemu/src/monitor/sdb/expr.c:183-213 | On a written tree the scan finds its outermost operator: the rightmost of the loosest operators outside parentheses. |
| SdbGrammar.RenderFull | ysyx-workbench/nemu/src/monitor/sdb/expr.c:139-163 | A written tree is never badly nested, and is enclosed exactly if it is a number or a parenthesised tree. |
| SdbEval.Debugger.Tokenise | ysyx-workbench/nemu/src/monitor/sdb/expr.c:215-226 | In-place classification, each token by the one before it. |
| SdbEval.TokenisedAt | ysyx-workbench/nemu/src/monitor/sdb/expr.c:215-226 | A minus or star is made unary exactly at the start and after `+`, `-`, `*`, `/` and `(` as already classified; everything else stays. |
| SdbEval.TokenisedRender | ysyx-workbench/nemu/src/monitor/sdb/expr.c:215-226 | Classification recovers a written tree if and only if no unary operator directly follows `==`, `!=` or `&&`. |
| SdbEval.TokenisedBad | ysyx-workbench/nemu/src/monitor/sdb/expr.c:215-226 | Classification does not change nesting. |
| SdbEval.Debugger.Eval | ysyx-workbench/nemu/src/monitor/sdb/expr.c:228-288 | Evaluating the tokens of a tree gives its value in 32-bit arithmetic (division by zero is 0, memory outside physical memory reads as 0); badly nested or empty stretches give 0; the recursion ends. |
| SdbEval.Debugger.EvalText | ysyx-workbench/nemu/src/monitor/sdb/expr.c:228-288 | On the tokens of a layered expression (factors, products, sums, comparisons and conjunctions, each associating to the left) the answer is its meaning modulo 2^32. |
| SdbLayers.Layered | ysyx-workbench/nemu/src/monitor/sdb/expr.c:166-213 | Every layered expression is a tree that precedence and association give, with the same tokens and the same value. |
| SdbLayers.ToLayers | ysyx-workbench/nemu/src/monitor/sdb/expr.c:166-213 | Every such tree is a layered expression. |
| SdbLayers.PlusTimesValue | ysyx-workbench/nemu/src/monitor/sdb/expr.c:166-213 | `a + b * c` means the sum of `a` and the product, modulo 2^32. |
| SdbLayers.MinusMinusValue | ysyx-workbench/nemu/src/monitor/sdb/expr.c:166-213 | `a - b - c` means `(a - b) - c` modulo 2^32. |
| SdbEval.Debugger.Expr | ysyx-workbench/nemu/src/monitor/sdb/expr.c:290-304 | From the lexer's tokens to the value, which for a layered expression is its meaning. |
| SdbEval.RenderInjective | ysyx-workbench/nemu/src/monitor/sdb/expr.c:139-226 | A token sequence is written by at most one proper tree, so the value is determined by the tokens. |
| InstructionPattern.PatternDecode | ysyx-workbench/nemu/include/cpu/decode.h:31-60 | The test with key, mask and shift accepts a word if and only if every fixed bit of the pattern agrees, for every pattern. |
| InstructionPattern.ShiftedTest | ysyx-workbench/nemu/include/cpu/decode.h:90-97 | Dropping trailing question marks from key and mask does not change the test. |
| InstructionPattern.Dispatch | ysyx-workbench/nemu/src/isa/riscv32/inst.c:66-119 | The chain of tests ends at the first pattern that agrees. |
| InstructionTable.TextAgrees | ysyx-workbench/nemu/src/isa/riscv32/inst.c:66-119 | Each of the 45 patterns agrees with exactly the words that have its fixed fields. |
| InstructionTable.FirstMatch | ysyx-workbench/nemu/src/isa/riscv32/inst.c:66-119 | The first row that a word matches is determined by opcode, funct3 and funct7; the second row for `sb` is never reached. |
| InstructionTable.RowChosen | ysyx-workbench/nemu/src/isa/riscv32/inst.c:66-119 | A word that matches a row, other than the repeated one and `inv`, is dispatched to it, so the order of the rows does not matter. |
| InstructionTable.DispatchInst | ysyx-workbench/nemu/src/isa/riscv32/inst.c:66-119 | Every word is dispatched to its row. |
| InstructionTable.EncodedR | chisel-template/sim/TopTestFramework.h:47-54 | A register operation from the encoder is dispatched to its row, whatever the registers. |
| InstructionTable.EncodedI | chisel-template/sim/TopTestFramework.h:56-63 | An immediate operation, load or `jalr` from the encoder is dispatched to its row, whatever the immediate. |
| InstructionTable.EncodedShift | chisel-template/sim/TopTestFramework.h:56-63 | A shift by a constant is dispatched to its row. |
| InstructionTable.EncodedS | chisel-template/sim/TopTestFramework.h:65-75 | A store from the encoder is dispatched to the first row for it. |
| InstructionTable.EncodedB | chisel-template/sim/TopTestFramework.h:77-96 | A branch with an even offset is dispatched to its row. |
| InstructionCodec.DecodeEncodeR | chisel-template/sim/TopTestFramework.h:47-54 | Decoding an R-type word recovers all fields. |
| InstructionCodec.DecodeEncodeI | chisel-template/sim/TopTestFramework.h:56-63 | Decoding an I-type word recovers the fields, and the immediate if and only if it is in range. |
| InstructionCodec.DecodeEncodeS | chisel-template/sim/TopTestFramework.h:65-75 | The same for the split S-type immediate. |
| InstructionCodec.DecodeEncodeB | chisel-template/sim/TopTestFramework.h:77-96 | The same for the scrambled B-type offset; exactly odd offsets are refused. |
| InstructionCodec.JoinSigned13 | ysyx-workbench/nemu/src/isa/riscv32/inst.c:35 | The four pieces of a branch offset, joined by the decoder, are the signed offset. |

## Left out

- ExprHeap.Store.EliminateEqLeavesInPlace: an argument of type pointer to pointer is a result that the caller stores, and the members of a union are fields of their own.
- MenuDependency.Normalized: `expr_trans_compare` and `rewrite_m` are modelled on values; what they give is then allocated.
- ExprJoin.JoinAndSound: needs valuations that separate constants; `ExprJoin.JoinAndExact` shows that the condition is exact.
- MenuDependency.BelongsUnder: what a nested entry implies for uncollapsed values is false in general (`MenuDependency.NegatedTristateNested`) and is stated where collapsing is faithful (`MenuDependency.SupersetTransfers`).
- MenuTree.Finalize: the answers of the test for automatic submenus are a given function of two entries; the test itself is `MenuDependency.BelongsUnder`, and passing dependencies down is `MenuDependency.PassDown`. Conditions of properties, reverse dependencies and the marking of choice values are not part of it.
- SymbolEvaluator.Evaluator.CalcText: string, hex and int values themselves, ranges and warnings are not modelled, only which symbols a calculation looks at and the write flag.
- SymbolEvaluator.Evaluator.CalcExpr: the order of two symbols' strings is a given function of their tristates; looking at the modules symbol on the way is left out.
- SymbolEvaluator.Evaluator.CalcPrompts: the cached value of each property's condition is used at once and not kept.
- SymbolEvaluator.Evaluator.SetTristateValue: a value equal to the current one is stored without any test and without recalculation, so nothing is claimed about later recalculations then.
- DependencyCheck.Checker.CheckDeps: the message that prints the cycle is left out; the check stack is a sequence of symbols.
- MinirvSimulation.RunSimulated: `auipc`, `fence` and system instructions have no macro; registers are known by number, so the textual comparison of `zero` with `x0` is one case; code is not modified by the program. Pseudo-instructions that only rename the modelled macros are left out.
- MinirvSimulation.StepSimulated: an operation whose expansion is empty is matched by no step at all.
- CoreBench.BenchList: the state machine, matrix and crc kernels are given functions of the data byte, pattern and running crc.
- CoreList.MergeSort: the overflow of the run length beyond 2^30 nodes is left out.
- Sha256Context.Context.Update: one call with so many bytes that adding the buffered length wraps is excluded.
- Sha256Context.HashChunks: the hexadecimal printing of the digest is left out.
- SdbEval.Debugger.Eval: balanced token sequences that no tree writes, on which the code stops at an assertion or recurses without end, are excluded; the limit of 32 tokens and the lexer are left out.
- InstructionPattern.PatternDecode: patterns of 64 and more characters and other characters, on which the code panics.
- InstructionCodec.DecodeEncodeB: the effects of instructions, and the U and J formats, which have no encoder.
- Division64.UDivModDi4: the remainder is always delivered (the code accepts a null pointer for it), and one C function is cut along its top-level branches.
- Kconfig choices, the parser and lexer, files and printing; devices, the simulator, test harnesses and games.
