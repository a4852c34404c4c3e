# Verified model of the kernel's algorithms and of its configurator

The repository is a small i386 kernel and the configurator that decides what is built into it.
This project models the parts of both that have real invariants, and proves them with Dafny:

* **the expression optimiser** of the configurator (`expr.c`). Dependencies are expressions over a
  three-valued logic n < m < y, with AND as minimum, OR as maximum and NOT as 2 - x. An
  environment gives every boolean symbol n or y and every tristate symbol any of the three; a
  comparison looks at strings, which for boolean and tristate symbols are the letters n, m and y.
  An environment may also be lifted: then m counts as y where a symbol stands as an operand, as it
  does for a symbol that cannot be m. What holds in every environment holds in both readings.
  Constant elimination, `expr_eq`, factor extraction, `expr_transform`, the joining rules, the two
  passes of duplicate elimination, the loop around them, and the queries are functions on
  expression values; what each keeps is proved for every expression and every environment.
  `expr_eliminate_yn`, `expr_trans_bool` and `expr_transform` are also modelled as the code has
  them, rewriting linked cells in place, and proved to leave what the functions say.
* **symbol values** (`symbol.c`): the memoising, mutually recursive evaluator on a graph that may
  have cycles, and the hash table that interns symbols.
* **AVL trees** (`avl.c`, `avl.h`): insertion with rotations on linked nodes, lookup, traversal.
* **page frames** (`pfd.c`, `list.h`): three circular doubly linked lists through one array.
* **configuration lines** (`confdata.c`): what is written for a symbol, and reading it back,
  including the loop that removes escapes inside the line buffer.
* **the kernel debugger's packets** (`gdb.c`, `command.c`, `packet.c`): two nested state machines
  that receive, and the sender.
* **virtual ranges** (`stand.c`): the sorted list of reservations and the free-range search.

Code that changes state is modelled by classes, arrays and linked objects whose methods are proved
against functions; the lemmas are about those functions. `hide` in a proof keeps definitions out of
the solver's sight and has no other meaning.

## Where the code does not do what it is said to do

The model follows the code; these are its deviations, each with its exact extent.

* `expr_eliminate_dups` is not exact on m: `(a||b) && (!a&&!b)` with a = m is m and becomes n
  (`DuplicatesExample.WithoutDupsNotExact`). It never changes n or y, so it is exact wherever the
  value is not m (`WithoutDupsSettles`), and wherever only operands are joined (`WithoutDupsJoinsExact`); a
  single collapse is right exactly where the chain is not m (`CollapseExactIff`).
* `expr_eq` does not find every expression equal to itself: two string constants in one AND or OR
  chain are never cancelled, unless a y or n decides the chain (`ExprEqReflexiveIff`,
  `ExprEqNotReflexive`). Where constants are nested deeper it is not even the case that an
  expression equal to another one is equal to itself (`EqualNotReflexive`); what the optimiser
  returns has no such constants (`CleanIsYnOnTop`), and there `expr_eq` is exactly equality up to
  order and grouping, string constants apart (`ExprEqIff`).
* `expr_eliminate_eq` on two roots of one kind has a result exactly if they are AND or OR
  (`EliminateEqFactors`); otherwise it takes a symbol, or nothing, for an expression.
  `menu_finalize` reaches such a call, for instance with two negations of boolean symbols
  (`SubmenuFault`).
* `expr_trans_compare` is right exactly under `ComparesRight` (`TransCompareIff`): through NOT it
  becomes wrong where the negated expression is m (`TransCompareNot`), and an operand symbol that is
  undefined, a number or a string is compared by its text although its value is n
  (`TransCompareText`). Comparing with m, which no caller does, leaves AND and OR as they are
  (`TransCompareMod`).
* `menu_finalize` puts an entry below the one before it when cancelling leaves nothing of that one's
  condition. Such an entry is never shown without the other exactly where its visibility compares
  right with n (`SubmenuIff`); `!t && c && !x` below a symbol x that is visible if `t=n && c` is shown
  at t = m, where x is hidden (`SubmenuUnsound`).
* `expr_trans_bool` below a NOT is right exactly when the symbol is not m (`TransBoolBelowNot`); the
  form it is applied to has no such place.
* `expr_print` writes a string constant without its quotes: an expression reads back as itself, up
  to association, exactly if it has none (`PrintParse`, `PrintLosesQuotes`).
* `_avl_traverse` visits in post-order although `avl.h` (line 118) promises increasing order; the
  order is increasing exactly when no node has a right child (`TraverseIncreasing`).
* `stand_getNextFreeVirtual` does not notice a segment strictly inside the range it returns, nor one
  that ends with the address space, because its end wraps to 0; the page directory, reserved first
  (`initial_paging.c`, line 58), is such a segment (`SearchCorrect`, `SearchMissesInside`,
  `SearchMissesTop`). A request that itself reaches the end of the address space is granted,
  unless a segment holds its start or its wrapped end (`SearchBeyond`).
* A rejected packet does not reset the command machine: the next packet's name and arguments are
  appended to what has been read (`ResendAppends`). In every state between packets a packet runs its
  command with its own arguments exactly under `WillBeRight` (`FrameRightIff`). The position in a
  full argument buffer starts over, so that a command sees the last block of longer arguments
  (`FrameAccepted`); this is where the terminator falls when the 4-byte position lies right behind
  the 128 bytes, low byte first, as on the i386. Before any command has been named, a packet without
  a known command makes the handler use a null pointer (`PacketFaults`).
* Checksum digits are not checked: the characters from : to ? count as 10 to 15, and the one before
  A or a as 9 (`FromHexIff`).
* A value that is not read back from its configuration line: one whose line does not fit the buffer
  of 1023 characters, a string with a newline, an invalid number (`TriReadBack`, `NumberReadBack`,
  `TextReadBack`).

## Model

| member | source | states |
|---|---|---|
| `ConstantElimination.EliminateYnExact` | src/tools/kconfig/expr.c:210-291 | removing y and n operands keeps the value of every expression in every environment |
| `ConstantElimination.EliminateYnClean` | src/tools/kconfig/expr.c:210-291 | afterwards no AND or OR outside negations has a y or n operand |
| `ConstantElimination.EliminateYnShrinks` | src/tools/kconfig/expr.c:210-291 | the number of AND/OR nodes drops exactly if there was such an operand; otherwise nothing changes |
| `CellRewriting.DropConstant` | src/tools/kconfig/expr.c:219-243 | in place on the top cell: it becomes the deciding constant, a copy of the operand that stays, or is left alone |
| `CellRewriting.EliminateCell` | src/tools/kconfig/expr.c:210-291 | in place on linked cells: the same top cell holds the expression without y/n operands, using no cell that was not there |
| `Equality.CancelEqFactors` | src/tools/kconfig/expr.c:126-157 | each side of the cancelling walk is the common part joined with what is left of it |
| `Equality.EliminateEqFactors` | src/tools/kconfig/expr.c:159-169 | for any two roots: there is a result exactly if they differ in kind or are AND or OR; both sides are the common part joined with what is left, free of y/n operands, and roots of different kinds are left alone |
| `Equality.EliminateEqImplies` | src/tools/kconfig/expr.c:159-169 | if only y is left of the second side, the first one is never above it |
| `Equality.ExprEqSound` | src/tools/kconfig/expr.c:171-208 | expressions that expr_eq calls equal have the same value in every environment |
| `Reflexivity.ExprEqReflexive` | src/tools/kconfig/expr.c:171-208 | expr_eq holds of an expression with itself if no AND/OR chain has two string constants |
| `Reflexivity.EqualIsTame` | src/tools/kconfig/expr.c:171-208 | an expression without y/n operands that equals another one without has no such chain |
| `Reflexivity.ExprEqReflexiveIff` | src/tools/kconfig/expr.c:171-208 | with y/n operands at the root only: self-equality holds exactly if one of them decides the root chain or no chain has two string constants |
| `Reflexivity.DecidedEqual` | src/tools/kconfig/expr.c:171-208 | any two chains of one operator that hold its deciding constant are equal |
| `Reflexivity.CleanIsYnOnTop` | src/tools/kconfig/expr.c:210-291 | what expr_transform and expr_eliminate_yn leave meets the condition on y/n operands |
| `Reflexivity.EqualNotReflexive` | src/tools/kconfig/expr.c:171-208 | a concrete chain with nested constants that equals another one but not itself |
| `Reflexivity.ExprEqNotReflexive` | src/tools/kconfig/expr.c:138-142 | a concrete expression that expr_eq does not find equal to itself |
| `Canonical.ExprEqIff` | src/tools/kconfig/expr.c:171-208 | without y/n operands two expressions are equal exactly if they are the same up to order and grouping of the operands of AND and OR at every level, and no chain has two string constants; so on them expr_eq is symmetric and transitive |
| `Canonical.CancelTakesSame` | src/tools/kconfig/expr.c:126-157 | cancelling takes from both chains the same operands, as often from the one as from the other |
| `Canonical.CancelSeparates` | src/tools/kconfig/expr.c:126-157 | afterwards the two chains share no operand but string constants |
| `Canonical.EliminateEqIff` | src/tools/kconfig/expr.c:159-169 | nothing of the second chain is left exactly if its operands, as often as they occur, are operands of the first, and none is a string constant |
| `Joining.JoinExact` | src/tools/kconfig/expr.c:325-471 | every joining rule for two disjuncts or conjuncts yields exactly the value of the two together |
| `Joining.JoinIff` | src/tools/kconfig/expr.c:325-471 | two operands are joined exactly if they are equal, are a boolean symbol and its negation (the source's constants for OR and AND), or tests of one tristate symbol in the tables of the source |
| `Joining.JoinShape` | src/tools/kconfig/expr.c:325-471 | the joined operand is a copy of the first one or a single test, so it never extends a chain |
| `Duplicates.Dups1` | src/tools/kconfig/expr.c:473-523 | the first pass ends, rewrites operands only and never adds AND/OR nodes |
| `Duplicates.Dups2` | src/tools/kconfig/expr.c:525-579 | the second pass ends, rewrites operands only and never adds AND/OR nodes |
| `DuplicatesProofs.Dups1Exact` | src/tools/kconfig/expr.c:473-523 | the first pass keeps all three values exactly |
| `DuplicatesProofs.Dups2Settles` | src/tools/kconfig/expr.c:525-579 | the second pass keeps n and y; only an m may become definite |
| `DuplicatesProofs.CollapseSettles` | src/tools/kconfig/expr.c:543-575 | the same for one operand that its chain decides |
| `DuplicatesProofs.CollapseExactIff` | src/tools/kconfig/expr.c:545-575 | where a collapse fires, it keeps the value exactly in the environments in which the chain is not m |
| `DuplicatesProofs.CollapseDecides` | src/tools/kconfig/expr.c:545-558 | a chain that holds all operands of another expression is bounded by it |
| `DuplicatesProofs.Dups1Marks` | src/tools/kconfig/expr.c:500-518 | raising trans_count leaves a y or n operand; not raising it changes nothing |
| `DuplicatesProofs.Dups2Marks` | src/tools/kconfig/expr.c:545-575 | the same for the second pass |
| `DuplicatesLoop.RoundProgress` | src/tools/kconfig/expr.c:588-600 | a round that counted something makes constant elimination lower the number of AND/OR nodes, so the loop ends |
| `DuplicatesLoop.Optimizer.EliminateDups` | src/tools/kconfig/expr.c:581-603 | the loop computes the fixpoint of the rounds and restores trans_count |
| `DuplicatesLoop.WithoutDupsSettles` | src/tools/kconfig/expr.c:581-603 | for every expression and environment: n and y are kept, only an m may become definite |
| `DuplicatesLoop.WithoutDupsExact` | src/tools/kconfig/expr.c:581-603 | exact wherever no operand symbol is m |
| `DuplicatesLoop.WithoutDupsJoinsExact` | src/tools/kconfig/expr.c:581-603 | exact on all three values if the second pass never decides a chain |
| `DuplicatesLoop.FirstPassIdle` | src/tools/kconfig/expr.c:473-523 | the first pass does nothing exactly if no two operands of a chain, or of a chain inside it, can be joined |
| `DuplicatesLoop.WithoutDupsFinal` | src/tools/kconfig/expr.c:581-603 | the result is final: a second run returns it, and no two operands of its chains can be joined |
| `DuplicatesLoop.NoDuplicatesLeft` | src/tools/kconfig/expr.c:473-603 | in the result no two places of different operands of any chain outside negations hold equal expressions, or a pair that the tables merge |
| `DuplicatesLoop.NothingDecidesResult` | src/tools/kconfig/expr.c:525-603 | in the result no operand of the root chain has a negation all of whose operands the chain holds |
| `DuplicatesExample.WithoutDupsNotExact` | src/tools/kconfig/expr.c:545-558 | (a \|\| b) && (!a && !b) with a tristate a at m evaluates to m but is rewritten to n |
| `Transformation.TransformExact` | src/tools/kconfig/expr.c:605-740 | expr_transform keeps all three values in every environment |
| `Transformation.TransformNormal` | src/tools/kconfig/expr.c:605-740 | afterwards NOT sits on non-constant symbols only, and no comparison has a boolean symbol on its left and y, m or n on its right |
| `Transformation.TransformFixpoint` | src/tools/kconfig/expr.c:605-740 | it changes nothing exactly on that form, so it is idempotent |
| `CellRewriting.TransformCell` | src/tools/kconfig/expr.c:605-740 | in place on linked cells, reusing them: the returned cell holds the transformed expression, built of the old cells and new ones |
| `CellRewriting.Distribute` | src/tools/kconfig/expr.c:685-702 | the negation of AND/OR becomes two negations, the first in the old operator's cell |
| `Extraction.ExtractEqFactors` | src/tools/kconfig/expr.c:817-844 | both expressions are the extracted part joined with what remains of them |
| `Extraction.ExtractNothing` | src/tools/kconfig/expr.c:817-844 | nothing is extracted exactly if no operand of the one equals an operand of the other, and then both are left as they are |
| `Extraction.ExtractFactors` | src/tools/kconfig/expr.c:795-815 | the same factoring for the two entry points, after constant elimination |
| `Queries.TransBoolKeepsNo` | src/tools/kconfig/expr.c:296-320 | on the form of expr_transform the value is never raised and "not n" is kept exactly |
| `Queries.TransBoolTests` | src/tools/kconfig/expr.c:296-320 | no comparison of a tristate symbol with n by != is left anywhere, below negations included, and an expression without one is unchanged |
| `Queries.TransBoolBelowNot` | src/tools/kconfig/expr.c:296-320 | below a NOT both hold exactly if the symbol is not m |
| `Queries.TransBoolLifted` | src/tools/kconfig/expr.c:296-320 | in the reading of a symbol that cannot be m, the value is kept exactly |
| `CellRewriting.TransBoolCell` | src/tools/kconfig/expr.c:296-320 | in place on linked cells, with the cells unchanged |
| `Queries.TransCompareIff` | src/tools/kconfig/expr.c:846-904 | for every expression, comparing with y or n yields y or n, and the right one exactly under a recursive condition: a symbol by its text, a negation by whether what it negates is m; for AND and OR the condition is the composition of the answers itself |
| `Queries.TransCompareMeaning` | src/tools/kconfig/expr.c:846-904 | it is the right one when all operand symbols are boolean, tristate or constants and no negated part is m |
| `Queries.TransCompareNot` | src/tools/kconfig/expr.c:877-878 | for every expression: through a negation the comparison turns from right to wrong, or back, exactly if the negated expression is m |
| `Queries.TransCompareText` | src/tools/kconfig/expr.c:897-898 | an operand symbol of value n without a letter compares right with n exactly if its text is "n", and with y exactly if it is not "y" |
| `Queries.TransCompareMod` | src/tools/kconfig/expr.c:846-904 | comparing with m is right exactly where an AND or OR, left as it is, is n, a symbol's text agrees with its value on m, and through a negation of anything else where it is wrong without |
| `Queries.ContainsSound` | src/tools/kconfig/expr.c:742-764 | an expression that does not contain a symbol has a value independent of it |
| `Queries.ContainsIff` | src/tools/kconfig/expr.c:742-764 | the symbols contained are exactly those that occur |
| `Queries.DependsForces` | src/tools/kconfig/expr.c:766-793 | an expression that depends on a symbol contains it, and is n whenever the symbol is |
| `Queries.DependsIff` | src/tools/kconfig/expr.c:766-793 | a dependence is exactly an operand of the AND chain that is the symbol, or compares it with y or m by = or with n by != |
| `MenuDependency.WithoutDupsNormal` | src/tools/kconfig/menu.c:150-165 | duplicate elimination keeps the form that expr_transform produces |
| `MenuTree.PromptVisibilityMeaning` | src/tools/kconfig/menu.c:159-168 | the visibility stored for a prompt is in normal form, n where the conditions are n and not n where they are y, for every kind of symbol and with missing conditions; exact up to m for tristate symbols, and for others without any comparison of a tristate symbol with n by != |
| `MenuTree.NestedVisibility` | src/tools/kconfig/menu.c:144-171 | the same for an entry at any depth of the menu tree, against all conditions on the way to it |
| `Submenus.SubmenuIff` | src/tools/kconfig/menu.c:172-197 | an entry put below the one before it by cancelling is never shown without it exactly if its visibility compares right with n wherever that one is hidden, provided that one's compares right; wherever it is shown without it, one of the two compares wrong |
| `Submenus.SubmenuSound` | src/tools/kconfig/menu.c:172-197 | so it is never shown without it where both visibilities have boolean and tristate operands only and no m below a negation |
| `Submenus.PutBelowIff` | src/tools/kconfig/menu.c:172-197 | for prepared conditions without y/n operands and without two string constants in a chain: an entry is put below the one before it exactly if both are conjunctions and all operands of the other's are operands of its own, as often and none a string constant, or the other is y and its own no symbol |
| `SubmenuExample.SubmenuUnsound` | src/tools/kconfig/menu.c:178-191 | !t && c && !x is put below a symbol x that is visible if t=n && c; with t at m it is shown while x is hidden |
| `Submenus.SubmenuFault` | src/tools/kconfig/menu.c:178-186 | the cancelling is reached, and has no result, when both visibilities are negations of boolean symbols, the entry's one of the symbol before it |
| `Printing.PrintParse` | src/tools/kconfig/expr.c:979-1036 | reading back what expr_print writes, with the precedences of the grammar, gives the expression with its names looked up again, associated to the left; this is the expression itself, up to association, exactly if it has no string constant; association keeps every value |
| `Printing.PrintLength` | src/tools/kconfig/expr.c:947-1036 | parentheses stand around AND and OR below NOT and OR below AND, and nowhere else |
| `Printing.PrintLosesQuotes` | src/tools/kconfig/expr.c:999-1008 | a comparison with a string constant reads back as one with the symbol of that name, of a different value |
| `Printing.LeftAssocOperands` | src/tools/kconfig/zconf.tab.c:1571-1613 | re-association keeps the operands of every chain in order |
| `SymbolEvaluation.Evaluator.CalcValue` | src/tools/kconfig/symbol.c:156-256 | ends on every graph, cyclic ones included; keeps the invariant that no boolean symbol is m; on acyclic graphs it leaves the value and write flag the configuration determines and touches no symbol outside |
| `SymbolEvaluation.Evaluator.CalcExpr` | src/tools/kconfig/expr.c:906-945 | returns the value the configuration determines, under the same guarantees |
| `SymbolEvaluation.Evaluator.CalcVisibility` | src/tools/kconfig/symbol.c:140-154 | the visibility is the highest of the prompt conditions |
| `SymbolEvaluation.Evaluator.DefaultProp` | src/tools/kconfig/symbol.c:127-138 | the first default whose condition is not n |
| `SymbolEvaluation.Evaluator.TwoValuedType` | src/tools/kconfig/symbol.c:84-97 | m is unavailable to boolean symbols, and to tristate ones when modules is n |
| `SymbolEvaluation.Evaluator.ClearAllValid` | src/tools/kconfig/symbol.c:294-302 | forgetting all values keeps the invariant |
| `SymbolValues.SymbolValueBounds` | src/tools/kconfig/symbol.c:197-246 | a symbol without m is never m, a visible one that is not optional is never n, and only lifting m to y exceeds the visibility |
| `SymbolValues.SymbolValueIs` | src/tools/kconfig/symbol.c:156-256 | the value, from the prompts, defaults, the user's value and the values of the symbols they mention: from a start, which is the user's value if visible and otherwise the first default that holds, limited by the visibility if visible, then raised where m is unavailable; and exactly when the symbol is written |
| `SymbolValues.StartExists` | src/tools/kconfig/symbol.c:184-216 | there is exactly one visibility, the highest prompt condition, and one such start |
| `SymbolValues.ExprValueIsEval` | src/tools/kconfig/expr.c:906-945 | evaluating a condition on demand is evaluating the expression in the environment of all symbol values |
| `SymbolValues.SameSymbolValue` | src/tools/kconfig/symbol.c:156-256 | the value of a symbol does not depend on how the graph is seen to be acyclic |
| `SymbolStates.StepRaise` | src/tools/kconfig/symbol.c:184-256 | a symbol computed completely extends the memory of right values |
| `SymbolStates.KnownIsRight` | src/tools/kconfig/symbol.c:163-164 | a remembered value is the value the configuration determines |
| `SymbolInterning.SymbolTable.Lookup` | src/tools/kconfig/symbol.c:536-580 | returns the symbol of that name and constancy, entering one exactly if there was none, always for a missing name, and never loses one |
| `SymbolInterning.SymbolTable.Find` | src/tools/kconfig/symbol.c:582-607 | y, m and n give the constants; any other name its symbol that is no constant, or null if there is none |
| `SymbolInterning.SymbolTable.LookupAll` | src/tools/kconfig/symbol.c:536-580 | over any run of lookups two give the same symbol exactly if they ask for the same one |
| `SymbolInterning.OneSymbol` | src/tools/kconfig/symbol.c:553-559 | a name with its constancy denotes one symbol |
| `Avl.Insert` | src/lib/algo/avl.c:19-132 | the tree stays balanced, and AVL_BALANCE is returned exactly if the height grew by one |
| `Avl.InsertInOrder` | src/lib/algo/avl.c:19-132 | in order, the tree is the old one with the node at its place |
| `Avl.InsertContents` | src/lib/algo/avl.c:19-40 | the order is kept, and the nodes are the old ones and the new one unless its key was there |
| `Avl.InsertPresent` | src/lib/algo/avl.c:36-39 | an insertion under a key that is there leaves the tree alone |
| `Avl.RotateRight` | src/lib/algo/avl.c:42-48 | the pointers after a right rotation |
| `Avl.GrowLeft` | src/lib/algo/avl.c:58-94 | on linked nodes: single or double rotation and skews, as the tree function says |
| `Avl.GrowRight` | src/lib/algo/avl.c:96-132 | its mirror image |
| `Avl.Add` | src/lib/algo/avl.c:19-40 | on linked nodes: the pointers form the tree with the node inserted |
| `Avl.Find` | src/include/algo/avl.h:53-72 | the search loop returns a node exactly if its key is in the tree |
| `Avl.AvlTree.Insert` | src/lib/algo/avl.c:19-40 | a tree variable keeps order, balance and skews, and gains the key |
| `Avl.AvlTree.Lookup` | src/include/algo/avl.h:78-83 | a node is found exactly if its key is in the tree |
| `Avl.HeightLogarithmic` | src/lib/algo/avl.c:19-132 | a balanced tree of height h has at least the Fibonacci-style minimum of nodes, hence 2^(h/2) - 1 |
| `Avl.InsertAllContents` | src/lib/algo/avl.c:19-132 | after any sequence of insertions the keys are those inserted, in order, at logarithmic height |
| `Avl.Traverse` | src/lib/algo/avl.c:150-158 | visits left side, right side, then the node |
| `Avl.TraverseIncreasing` | src/include/algo/avl.h:118 | the visit is in increasing order exactly if no node has a right child |
| `Avl.VisitedBefore` | src/lib/algo/avl.c:150-158 | of two nodes the one below the other is visited first, and if neither is, the one with the smaller key |
| `Avl.PostOrderNodes` | src/lib/algo/avl.c:150-158 | every node is visited once |
| `Lists.ListAdd` | src/include/list.h:54-56 | the ring with the new element first |
| `Lists.ListAddTail` | src/include/list.h:66-68 | the ring with the new element before the given one |
| `Lists.ListDel` | src/include/list.h:88-90 | the ring without the element |
| `Lists.ListEmpty` | src/include/list.h:105-107 | the head points to itself exactly if the ring has no element |
| `Lists.ListSplice` | src/include/list.h:114-127 | the ring with all elements of the other list after the head |
| `PageFrames.PageFrameDatabase.constructor` | src/kernel/mm/pfd.c:14-76 | mm_initPfd leaves three rings that hold the lists its loops describe, a partition of all frames |
| `PageFrames.FindHighestEnd` | src/kernel/mm/pfd.c:21-30 | the end of a RAM segment that no other segment's end exceeds |
| `PageFrames.PageFrameDatabase.SetFrameState` | src/include/mm/pfd.h:22-25 | the frame leaves its list, wherever it is, and comes first in the new one; the rings stay a partition |
| `PageFrames.PageFrameDatabase.AllocPhysicalPage` | src/kernel/mm/pfd.c:114-132 | the first free frame becomes used and its address is returned, or the free list is empty |
| `PageFrames.PageFrameDatabase.AllocPhysicalPageBottom` | src/kernel/mm/pfd.c:134-152 | the same from the other end |
| `FrameLists.InitListsCorrect` | src/kernel/mm/pfd.c:42-76 | after mm_initPfd the lists partition the frames: the mapped ones are used, those outside the RAM or among the last four bad unless mapped, all others free; the free list is strictly descending for ascending disjoint segments |
| `FrameLists.AllocateCorrect` | src/kernel/mm/pfd.c:114-152 | an allocation hands out a free frame, the highest (lowest) one of a descending list, puts it first in the used list and fails exactly on an empty free list |
| `FrameLists.RunCorrect` | src/kernel/mm/pfd.c:114-152 | over any run of allocations no frame is handed out twice, the frames handed out move from the free list to the used one, and partition and order are kept |
| `FrameLists.InitThenRun` | src/kernel/mm/pfd.c:42-152 | from mm_initPfd on, the frames handed out are different unmapped RAM frames; used are the mapped frames and those, and the bad frames stay what they were |
| `VirtualMap.SearchCorrect` | src/arch/i386/lib/stand/stand.c:91-130 | for segments up to the very end of the address space: the range found starts no earlier than asked, and a segment overlaps it exactly if it lies strictly inside (none as long as the request does), or ends with the address space and begins below the end of the range |
| `VirtualMap.SearchFirst` | src/arch/i386/lib/stand/stand.c:91-130 | the range found is the first possible one: at every earlier address from the start on some segment touches the range; if the search gives up, at every address at all |
| `VirtualMap.SearchStays` | src/arch/i386/lib/stand/stand.c:113-120 | the start asked for is granted exactly if no segment holds it or the address behind the range |
| `VirtualMap.SearchMissesTop` | src/arch/i386/lib/stand/stand.c:103-114 | a segment that ends with the address space is never noticed |
| `VirtualMap.SearchBeyond` | src/arch/i386/lib/stand/stand.c:94-120 | a request that reaches the end of the address space is granted unless a segment holds its start or its wrapped end |
| `VirtualMap.SearchMissesInside` | src/arch/i386/lib/stand/stand.c:113-114 | a concrete segment that is missed |
| `VirtualMap.SearchAvoidsReserved` | src/arch/i386/lib/stand/stand.c:91-130 | of the reserved segments, all as long as the request, the range found overlaps exactly those that end with the address space and begin below its end |
| `VirtualMap.InsertKeepsOrder` | src/arch/i386/lib/stand/stand.c:48-60 | inserting keeps the list sorted by base and holding every segment once |
| `VirtualMap.VirtualMemoryMap.SortedInsert` | src/arch/i386/lib/stand/stand.c:48-60 | the walk over the ring and list_add_tail insert at the right place |
| `VirtualMap.VirtualMemoryMap.Reserve` | src/arch/i386/lib/stand/stand.c:62-84 | a base is refused exactly if it is taken; otherwise the segment is added, with a panic after the 80th |
| `VirtualMap.VirtualMemoryMap.GetNextFreeVirtual` | src/arch/i386/lib/stand/stand.c:91-130 | the loop over the ring computes the search over the sorted segments |
| `VirtualMap.OrderedSegments` | src/arch/i386/lib/stand/stand.c:73-80 | list and array hold the same segments |
| `GdbStub.Receiver.Receive` | src/kernel/kdb/gdb.c:27-85 | one character changes the globals, and causes the output and calls, as the step function says |
| `GdbStub.PacketOutcome` | src/kernel/kdb/gdb.c:42-85 | a packet with any two characters at its end gives one + and one callback if they decode to the sum of its body, one - and none otherwise, and ends between packets; the last one must not be a dollar or Ctrl-C, which mean something there after a wrong first one |
| `GdbStub.PacketFaults` | src/kernel/kdb/command.c:51-69 | a packet ends in a null pointer exactly if no command was ever named |
| `GdbStub.Sender.SendPacket` | src/kernel/kdb/packet.c:7-42 | the characters sent are the frame of the body |
| `GdbStub.FrameAccepted` | src/kernel/kdb/packet.c:38-42 | at the start of the command machine, also as booted if it names a command, a packet of the sender is acknowledged and runs the command it names, with the last block of its arguments that the buffer holds |
| `GdbStub.FrameRightIff` | src/kernel/kdb/gdb.c:42-85 | in every state between packets with a command to run, as booted included, a packet is acknowledged, and runs its command with its own arguments exactly if the command machine is at its start and they fit, or the same command has filled its buffer up to the last place |
| `GdbStub.RunSound` | src/kernel/kdb/command.c:62-69 | over any input the positions stay inside the argument buffers |
| `GdbStub.IdleRun` | src/kernel/kdb/gdb.c:31-40 | between packets any text without a dollar leaves the stub unchanged and causes one reaction to each Ctrl-C and nothing else |
| `GdbStub.FramesAccepted` | src/kernel/kdb/gdb.c:27-85 | along any sequence of packets with any text without a dollar between them, from a ready state or as booted, all are acknowledged, none rejected, the commands run in order, and each Ctrl-C between them is reacted to |
| `GdbStub.SessionIff` | src/kernel/kdb/command.c:30-60 | from the state as booted such a sequence goes through exactly if it has no packet or the first one names a command |
| `GdbStub.HexDigitDecodes` | src/include/kdb/gdb.h:25 | the receiver's fromhex undoes the sender's hexdigit |
| `GdbStub.HexDigitEncodes` | src/include/kdb/gdb.h:25 | the other way round, up to upper case |
| `GdbStub.FromHexIff` | src/include/kdb/gdb.h:25 | a character counts as n exactly if it is a hex digit of that value, one of the six characters behind 9, or the one before A or a |
| `GdbStub.ResendAppends` | src/kernel/kdb/gdb.c:53-56 | a packet rejected and sent again runs its command with the arguments of both copies, or their last block |
| `Confdata.UnquoteEscape` | src/tools/kconfig/confdata.c:173-183 | removing escapes up to the closing quote gives back every string, whatever follows |
| `Confdata.EscapeLength` | src/tools/kconfig/confdata.c:315-327 | escaping costs one character for each quote and each backslash, and nothing else |
| `Confdata.UnquoteCut` | src/tools/kconfig/confdata.c:176-186 | text cut before its closing quote is rejected |
| `Confdata.WriteEscaped` | src/tools/kconfig/confdata.c:315-327 | the write loop puts a backslash before every quote and backslash |
| `Confdata.UnescapeInPlace` | src/tools/kconfig/confdata.c:176-186 | the loop in the buffer leaves the text without escapes, and fails exactly if there is no closing quote |
| `ConfigLines.TriReadBack` | src/tools/kconfig/confdata.c:292-309 | a bool or tristate line reads back exactly if it fits the buffer and m is not written for a bool |
| `ConfigLines.ReadFirstLetter` | src/tools/kconfig/confdata.c:155-172 | which of y, m and n an assignment to a bool or tristate gives is decided by its first letter |
| `ConfigLines.NotSetOrN` | src/tools/kconfig/confdata.c:119-172 | the line "is not set" and an assignment of n read the same |
| `ConfigLines.NotSetWhole` | src/tools/kconfig/confdata.c:119-137 | the line "is not set" makes a bool or tristate n, and does nothing for any other name |
| `ConfigLines.NumberReadBack` | src/tools/kconfig/confdata.c:331-342 | an int or hex line reads back exactly if it fits and the number is valid; one that fits and is not valid ends the program |
| `Numerals.IntegerIff` | src/tools/kconfig/symbol.c:407-419 | a valid int is exactly the numeral of an integer, or -0 |
| `Numerals.HexadecimalIff` | src/tools/kconfig/symbol.c:420-428 | a valid hex value is exactly a text of digits that denotes a number in base sixteen, in either case, with or without 0x or 0X |
| `Numerals.IntegerReadBack` | src/tools/kconfig/confdata.c:331-342 | every integer written by its numeral reads back exactly if the line fits |
| `Numerals.HexadecimalReadBack` | src/tools/kconfig/confdata.c:331-342 | the same for every number in base sixteen, whatever its prefix |
| `Numerals.DecodeDigits` | src/tools/kconfig/symbol.c:407-428 | a numeral denotes its number |
| `ConfigLines.TextReadBack` | src/tools/kconfig/confdata.c:310-330 | a string line reads back exactly if it fits and the string has no newline |
| `ConfigLines.ReadAssignment` | src/tools/kconfig/confdata.c:139-198 | the line of an assignment is split into name and text and read by the kind of the symbol |

## Left out

- ExprEqReflexiveIff: not for y and n operands below the root, where no condition on the operands one by one decides (EqualNotReflexive); the optimiser leaves none.
- ReadLine: a last line that is a lone # without a newline lets the code look at what an earlier line left in the buffer; the model takes it as a comment.
- CalcValue: choice symbols and choice values, and the flags that mark symbols and menus as changed.
- TwoValuedType: the branch for a visible choice value.
- InitListsCorrect: the RAM segments of the boot memory map are given; addresses are unbounded there.
- Duplicate elimination, equality and factor extraction rewrite through pointers to pointers; they are modelled on values, with places in one tree for the pointers, so that two places may be the same but cells and freed memory do not show.
- E_CHOICE expressions and missing (NULL) expressions other than missing conditions.
- Diagnostics, logging, panic itself and statistics; panics and exits are results of the model.
- PrintParse: the lexer; a name is one word even if its characters would be split or taken for signs.
- autoconf.h, which is written beside .config; opening and renaming files; user input.
- AVL deletion and its node swap: the swap leaves the link to a deep predecessor unchanged and the result codes mean growth where shrinkage is meant, so there is no invariant to prove.
- The debugger's commands themselves, trap frames, suspension and nested interrupts: a callback is an event with its argument text.
- The optional consistency scan of the page frame database, mapping its array, and deciding which pages are mapped: the mapped frames are given, and lie below the highest RAM address; for a page mapped to a frame above it the code writes beyond its array.
- The slab and pool allocators (src/kernel/mm/slab/slab.co, src/kernel/mm/pool.co), and the rest of the kernel and its tools.
