# Asa: verified models of the compiler and its containers

Asa is a small compiler written in C++ on top of LLVM.  This project models
its hardest parts in Dafny and proves what they do:

* **Control-flow lowering.**  `Language.dfy` gives statements (assignments,
  scopes, if / else-if / else, counted for loops, calls, 32-bit integers) a
  semantics over nested scopes of names.  `Machine.dfy` is a machine for basic
  blocks with registers and stack slots.  `Lowering.dfy` describes the blocks
  that code generation emits, `CodeGenerator.dfy` is the stateful builder that
  emits them, and `Simulation.dfy`, `Refinement.dfy` and
  `CompiledFunction.dfy` prove that running the blocks simulates the source;
  `Termination.dfy` proves that it always ends, and `Observed.dfy` tells from the
  arguments which calls some functions make.  `Structure.dfy` proves the blocks
  well formed, `Scoping.dfy` says when generation fails,
  `ArgumentEvaluation.dfy` when it matters that arguments are emitted twice,
  and `LoopMeaning.dfy` when a for loop is not the usual one.
* **Operator precedence.**  `Precedence.dfy` proves the repair of operator
  trees against an independent parse, `OperatorLevels.dfy` writes the operators
  out, `RepairTwice.dfy` says what it achieves on
  every tree, `BracketAccess.dfy` and `OpaqueOperands.dfy` what the parser builds
  and when brackets survive, `OperatorTags.dfy` what becomes of the operators'
  tokens, and `SyntaxTree.dfy` does the repair in place on heap nodes.
* **Reading source text.**  `Tokenizer.dfy`, `TokenizerText.dfy` and
  `LanguageTables.dfy` (the state machine of the tokenizer), `TokenRules.dfy` (its
  tables written out), `Comments.dfy` and `CommentRules.dfy`, `ScopeBody.dfy`
  (brace gathering), `Escapes.dfy` and `EscapeValues.dfy` (string escapes and UTF-8).
* **Calls and numbers.**  `Overloads.dfy` and `OverloadChoice.dfy` (scoring of candidate functions),
  `DigitStrings.dfy` (arithmetic on digit strings).
* **Containers.**  `BreadthFirst.dfy`, `BitWord.dfy` and `BitVector.dfy`,
  `AddressRanges.dfy` and `AddressRangesMap.dfy`, `CoalescingBitVector.dfy`,
  `CombinationGenerator.dfy`.

Where the code does not do what its comments or names promise, the model
follows the code.  Lemmas give failing inputs and when the promise holds:

* Arguments of a call are emitted twice; calls nested in them run repeatedly
  (if and only if there are any, for an expression).
* A for loop re-evaluates its limit in every round, outside the scope of its
  variable; assignments to the variable in the body are lost at the next
  round; the variable stays visible after the loop.  A condition on the text
  makes it the usual loop; it is sufficient, since whether a limit really
  changes or an assignment is ever reached cannot be read off the text.  That
  the scope afterwards is the usual one has an exact condition.
* To the precedence repair, a bracket access is an infix operator whose index
  nothing protects: `a[i + 1]` becomes `a[i] + 1`, and `a[i].x` becomes
  `a[i.x]`.  The repair also uses child pointers read before its first
  rotation: with a looser operand on both sides, as in `a[i].x + y`, an
  operator is lost.  An expression keeps its text, brackets included, if and only
  if it is sound, which can be read off its text.
* Left-associative rotations give the inner node the outer node's token and
  code generator: in `a.b.c` the second dot gets the first one's.  For whole
  trees whose left operands fit there is an exact condition.
* One repair need not settle a tree (`a[i].b[c]`); a second one always does.
* A union of coalescing bit vectors wraps around if and only if both contain
  the largest index.
* Line numbers fall behind by the newlines inside literals.
* A tilde or a backquote ends neither a name nor punctuation (`a~b` is one name).
* A line comment loses the last character of its text; a comment that begins
  right after a block comment is not recognised, and an unfinished one is not
  removed.
* The range check of a `\U` escape misses values from 0x80000000 on, which are
  negative: `\UFFFFFFFF` emits the byte 0xFF.  Among the escapes `\u` and `\U`
  that are accepted, exactly the surrogates and negative values with a low
  byte above 0x7F emit bytes that are not UTF-8.
* Signed and unsigned types of the same width are never taken for each other
  where types were inferred; a signed 64-bit type is taken for an unsigned 8-bit
  one.  An exact lookup accepts anything for a parameter that is no number.
* The product of a hexadecimal number is wrong exactly when its last carry
  exceeds nine (F times 11) or it is negative.
* A long division is wrong exactly when a remainder, with the next digit, exceeds
  32 bits.

`dafny verify dfyconfig.toml` checks everything.

## Model

| member | source | states |
|---|---|---|
| `CompiledFunction.SimFunction` | src/codegen.cpp:2869-3000 | whatever the bound on loop rounds, running the blocks generated for a function reproduces the source semantics: same event trace up to the return, or the same trace so far once the bound is used up; the generated code never gets stuck |
| `CompiledFunction.CompiledFunctionHalts` | src/codegen.cpp:2869-3000 | for every function that is generated, all arguments and whatever the callees return: the source ends without reading an unbound name; the generated code stops, after exactly one number of steps, at a return, with the source's trace of calls |
| `CompiledFunction.FunctionEnds` | src/codegen.cpp:2869-3000 | what a function does is independent of the bound on loop rounds, once that is large enough |
| `Termination.BlockEnds` | src/codegen.cpp:2520-2634 | every block comes to an end, with a number of rounds that its nesting of loops gives |
| `Termination.LoopEnds` | src/codegen.cpp:2568-2611 | whatever body and limit do, a loop ends: its own copy of the variable counts up by one and cannot pass the largest integer |
| `CompiledFunction.StopsOnce` | src/codegen.cpp:2869-3000 | the machine is deterministic: it stops after one number of steps only |
| `Observed.ComparisonCode` | src/codegen.cpp:1364-1371 | the code generated for an if statement calls one function or the other, for every pair of arguments, as the comparison operator says, each written out |
| `Observed.ArithmeticCode` | src/codegen.cpp:1341-1344 | the code generated for a sum, difference or product calls a function with the 32-bit number that is congruent to it |
| `Observed.CountingCode` | src/codegen.cpp:2520-2634 | the code generated for `for i : x..y { f(i) }` calls f once for every number from x up to but not including y, in order |
| `Observed.SummingCode` | src/codegen.cpp:1075-1216 | the code generated for a loop that adds to a variable calls f with the sum of the numbers below its argument |
| `Observed.Comparisons` | src/codegen.cpp:1364-1371 | the six comparison operators, by counting |
| `Observed.Arithmetic` | src/codegen.cpp:1341-1344 | results of the three arithmetic operators, up to multiples of 2^32 |
| `Observed.DeclaredFound` | src/codegen.cpp:647-661 | binding a name hides it further out and touches no other name |
| `Observed.UpdatedFound` | src/codegen.cpp:1186-1214 | an assignment changes the variable that is found, where it is found, and no other |
| `Refinement.SimBlock` | src/codegen.cpp:2086-2103 | the code of a scope body, entered at its insertion block, ends at its final insertion block having done what the statements do in order; memory agrees with the scopes again |
| `Refinement.SimIf` | src/codegen.cpp:2322-2412 | both branches of an if statement, and every else-if chain, end at the start of the merge block with the effect of the branch that the condition selects |
| `Refinement.SimFor` | src/codegen.cpp:2520-2634 | the condition, loop and after-loop blocks carry out the counted loop: start and limit evaluated where the source evaluates them, the loop variable stepping in 32 bits |
| `Refinement.SimLoop` | src/codegen.cpp:2558-2630 | by induction over the rounds: from the loop head, the code and the source loop go through the same rounds; a body that runs out of its bound makes the code take at least as many steps |
| `Refinement.SimAssign` | src/codegen.cpp:1075-1216 | an assignment stores to the variable that the name lookup finds, or to a new one of the innermost scope, on both sides |
| `Simulation.SimExpr` | src/codegen.cpp:1406-1475 | the code of an expression leaves its 32-bit value in its register, extends the trace as evaluation does and leaves every variable as it was |
| `Simulation.SimCall` | src/codegen.cpp:2184-2319 | a call whose arguments are emitted twice performs their calls twice, in order, before its own |
| `Simulation.SimCond` | src/codegen.cpp:1406-1475 | a comparison ends in the flag that the source condition has |
| `Simulation.LookupAgrees` | src/codegen.cpp:647-661 | a name that resolves to a stack slot resolves to a variable with the value in that slot, through all enclosing scopes |
| `Simulation.WriteVariable` | src/codegen.cpp:1186-1214 | storing to a slot changes the one variable it belongs to: distinct variables never share a slot |
| `Structure.FunctionWellFormed` | src/codegen.cpp:2869-3000 | in a finished function every block ends in its only terminator, all targets exist, and the layout lists each block exactly once |
| `Structure.IfSealed` | src/codegen.cpp:2322-2412 | an if statement leaves only its merge block open; every other block it touched ends in its only terminator |
| `Structure.ForSealed` | src/codegen.cpp:2520-2634 | the same for a for statement and its after-loop block |
| `Structure.BlockLaidOut` | src/codegen.cpp:2086-2103 | the blocks created inside a scope are inserted into the function once each |
| `Lowering.IfGrows` | src/codegen.cpp:2322-2412 | code generation only appends: instructions, blocks and slots present before an if statement are untouched, and it ends at an empty block |
| `Lowering.ForGrows` | src/codegen.cpp:2520-2634 | the same for a for statement |
| `LoopMeaning.ForAsUsual` | src/codegen.cpp:2520-2634 | a loop and the statements after it do what the usual loop (limit evaluated once, variable local and assignable) and they do, if the limit is call-free and reads nothing the body assigns, the body does not assign the loop variable and nothing mentions it afterwards |
| `LoopMeaning.LoopAsUsual` | src/codegen.cpp:2520-2634 | under the first two conditions the rounds are the same and the only difference is that the variable stays behind |
| `LoopMeaning.LeakShows` | src/codegen.cpp:2583-2630 | under those two conditions, a for statement does exactly what the usual one does if and only if the scope around it binds the variable's name already (or the loop does not finish) |
| `LoopMeaning.BlockExcept` | src/codegen.cpp:647-661 | statements that do not mention a name cannot tell whether it is bound |
| `LoopMeaning.BlockGrown` | src/codegen.cpp:1186-1214 | statements change only variables they assign, and add names only to the innermost scope |
| `LoopMeaning.LimitReread` | src/codegen.cpp:2561-2574 | a program where re-evaluating the limit shows: `for i : 0..n { n = n - 1 }` |
| `LoopMeaning.VariableReset` | src/codegen.cpp:2568-2611 | a program where an assignment to the loop variable is lost: `for i : 0..2 { n = n + 1  i = 5 }` counts to 2, the usual loop to 1 |
| `LoopMeaning.VariableStays` | src/codegen.cpp:2583-2630 | a program that reads the loop variable after the loop |
| `Scoping.FunctionLowers` | src/codegen.cpp:2869-3000 | a function is generated if and only if every name that its body reads is visible where it is read, by a definition that looks at the text only |
| `Scoping.BlockLowers` | src/codegen.cpp:2086-2103 | the same for statements in any scope |
| `Scoping.ExprLowers` | src/codegen.cpp:930-992 | the same for expressions |
| `Machine.RunAppend` | src/codegen.cpp:2869-3000 | runs compose |
| `CodeGenerator.Builder.GenerateIf` | src/codegen.cpp:2322-2412 | the stateful builder arrives at exactly the state that the lowering describes, and fails exactly when the lowering does, which is when a name is unbound (`Scoping.BlockLowers`) |
| `CodeGenerator.Builder.GenerateFor` | src/codegen.cpp:2520-2634 | the same for loops |
| `CodeGenerator.Builder.GenerateScopeBody` | src/codegen.cpp:2086-2103 | the same for scope bodies |
| `CodeGenerator.Builder.GenerateStmt` | src/codegen.cpp:1055-1216 | the same for statements |
| `CodeGenerator.Builder.GenerateExpr` | src/codegen.cpp:1406-1475 | the same for expressions, calls included |
| `CodeGenerator.Builder.GenerateArgs` | src/codegen.cpp:2184-2300 | the same for argument lists |
| `CodeGenerator.Builder.CreateAlloca` | src/codegen.cpp:394-400 | a fresh slot in the entry block; nothing else of the builder changes |
| `CodeGenerator.GenerateFunction` | src/codegen.cpp:2869-3000 | the imperative generator computes the lowering that the simulation theorems are about |
| `ArgumentEvaluation.EvaluatedAsWritten` | src/codegen.cpp:2184-2300 | an expression means the same as if every argument were evaluated once, if and only if no call stands inside an argument of another call |
| `ArgumentEvaluation.FunctionAsWritten` | src/codegen.cpp:2184-2300 | a whole function none of whose calls is nested in another behaves as if every argument were evaluated once |
| `ArgumentEvaluation.CallCounts` | src/codegen.cpp:2199-2290 | evaluating twice never makes fewer calls, and makes more as soon as a call is nested |
| `ArgumentEvaluation.NestedCallRunsTwice` | src/codegen.cpp:2199-2290 | a concrete program: `f(g())` calls g twice |
| `Precedence.Repair` | src/parser.cpp:1542-1637 | on whole trees whose left operands fit, the repair keeps operands and operators in order and yields a canonical tree: equal tightness nested to the right except for the left-associative operators (for all trees: `RepairTwice.FixNoLooser`) |
| `Precedence.RepairTop` | src/parser.cpp:1552-1635 | the same for one root with repaired operands |
| `Precedence.RepairIdempotent` | src/parser.cpp:1542-1637 | repairing again changes nothing |
| `Precedence.CanonicalUnique` | src/parser.cpp:372-396 | the canonical tree with a given order is unique |
| `Precedence.CanonicalIsParse` | src/parser.cpp:372-396 | every canonical tree is the split-at-the-loosest parse of its own order |
| `Precedence.RepairIsParse` | src/parser.cpp:1542-1637 | the repair of any such tree is that parse of its operands and operators |
| `OperatorLevels.WrittenOut` | src/parser.cpp:376-394 | as the parser nests them: for any two operators from different levels, written out from the tightest to the loosest, `a k b m c` becomes `(a k b) m c` if k is tighter and `a k (b m c)` if m is |
| `OperatorLevels.OneLevel` | src/parser.cpp:392-396 | two operators of one level nest to the left for member accesses, bracket accesses and pipes, and to the right for all others |
| `OperatorLevels.EveryOperator` | src/parser.cpp:376-394 | each operator is on exactly one level, and nothing else is |
| `Precedence.OrderKept` | src/parser.cpp:1555-1635 | for any canonical operands: operands and operators are kept in order if and only if there is no clash (a looser left operand and an even looser right one, reached along the rotated path); a clash loses operators, since the child read before the first rotation is used after it |
| `Precedence.TagsKept` | src/parser.cpp:1559-1580 | at one root: tokens and code generators stay with their operators if and only if no left-associative rotation happens along the path: it labels both nodes with the outer one |
| `OperatorTags.TagsAtRoot` | src/parser.cpp:1552-1635 | at one root with any canonical operands: tokens and code generators stay in order if and only if no operator clashes and none is merged |
| `OperatorTags.TagsStay` | src/parser.cpp:1559-1580 | on whole trees: every operator keeps its token and code generator if and only if no two equal left-associative operators, one to the right of the other with nothing looser between them, differ in theirs |
| `OperatorTags.TagsRepaired` | src/parser.cpp:1559-1580 | what the tokens and code generators are afterwards: the first of such operators labels the others |
| `OperatorTags.SecondDotLost` | src/parser.cpp:1559-1580 | the failing input: in `a.b.c` the second dot gets the token of the first |
| `RepairTwice.FixNoLooser` | src/parser.cpp:1542-1637 | on every tree whatsoever: after the repair no operator has a looser operand, and the root is no looser than the loosest operator was |
| `RepairTwice.UnchangedIfStable` | src/parser.cpp:1542-1637 | the repair leaves a tree as it is if and only if no operand is looser and no left-associative operator has itself on the right |
| `RepairTwice.RepairedTwice` | src/parser.cpp:1542-1637 | on every tree: a second repair leaves nothing to rotate |
| `RepairTwice.CanonicalStable` | src/parser.cpp:1542-1637 | canonical trees are among those |
| `BracketAccess.BuiltAndRepaired` | src/parser.cpp:798-906 | an expression, as the parser builds it from operands, operators and brackets, keeps its text through the repair, brackets included, if and only if it is sound: no operator tighter than an access right after a bracket, and only member accesses within brackets; then the tree is the independent parse that splits it at its loosest operator |
| `OpaqueOperands.ExpressionKept` | src/parser.cpp:798-906 | the same whatever stands inside of operands, such as unsound expressions in parentheses: an expression is read after the repair as before, if and only if it is sound |
| `OpaqueOperands.FixOperands` | src/parser.cpp:1542-1637 | on every tree: operators may be lost, but operands are not, and they stay in order |
| `OpaqueOperands.FixBlind` | src/parser.cpp:1542-1637 | on every tree: which rotations happen depends on operators alone |
| `BracketAccess.BuildSound` | src/parser.cpp:798-906 | the parser's tree has left operands that fit and tight indices if and only if no operator tighter than an access follows a bracket directly and no index holds an operator as loose as one |
| `BracketAccess.InfixSound` | src/parser.cpp:798-906 | without brackets every expression is sound |
| `BracketAccess.BuildFlat` | src/parser.cpp:798-906 | the parser's tree holds operands and operators in the order they were written |
| `BracketAccess.ParsedKept` | src/parser.cpp:1542-1637 | the same on the trees: the repair of anything that the parser builds keeps the text if and only if left operands fit and indices are tight |
| `BracketAccess.NoLooserRegular` | src/parser.cpp:1542-1637 | text without looser operands has no operator tighter than an access right after a bracket, and none looser than one within |
| `BracketAccess.RegularLeans` | src/parser.cpp:798-906 | a parsed tree with such a text has left operands that fit |
| `BracketAccess.IndexKept` | src/parser.cpp:1610-1635 | for repaired operands: a bracket access stays as it is if and only if its index is tight |
| `BracketAccess.SumLeavesBracket` | src/parser.cpp:1610-1635 | the failing input: `a[i + 1]` becomes `a[i] + 1` |
| `BracketAccess.MemberOfAccess` | src/parser.cpp:1584-1635 | for all repaired operands: a member access on a bracket access is never kept; it moves into the bracket, or is lost when something looser follows |
| `BracketAccess.MemberInBracket` | src/parser.cpp:1584-1609 | the failing input: `a[i].x` becomes `a[i.x]` |
| `BracketAccess.MemberLost` | src/parser.cpp:1584-1635 | the failing input for lost operators: `a[i].x + y` becomes `a[i][x] + y` |
| `BracketAccess.OnceIsNotEnough` | src/parser.cpp:1542-1637 | one repair need not settle a tree: `a[i].b[c]` becomes `a[i.b[c]]`, which a further repair would turn into `a[i.b][c]` |
| `SyntaxTree.FixPrecedence` | src/parser.cpp:1542-1637 | in place on heap nodes, for every tree: it becomes the repaired one, and only new nodes join it; a tree, or an operand, with nothing to rotate is not written to; an operand that rotations share ends up repaired once more, for whoever still points to it |
| `SyntaxTree.FixRoot` | src/parser.cpp:1552-1635 | the three rotations with child pointers read before the first of them |
| `SyntaxTree.RotateLeftInPlace` | src/parser.cpp:1561-1579 | one rotation in place: the node takes over the right child's last operand and gets a new repaired left operand; the two children are left as that repair leaves what it shares with them |
| `SyntaxTree.RotateRightInPlace` | src/parser.cpp:1589-1608 | its mirror image |
| `Precedence.Fix` | src/parser.cpp:1542-1637 | the repair keeps the number of nodes, hence terminates although it recurses into new nodes |
| `ScopeBody.ScanFindsMatch` | src/parser.cpp:28-72 | within braces, gathering stops exactly on the matching brace with the tokens strictly between, without the empty ones; it fails exactly when the tokens or an end-of-file token come first |
| `ScopeBody.GatherTwice` | src/parser.cpp:1483-1487 | a body gathered from outside with its braces, gathered again from within, holds the same tokens as gathered in place, and fails in the same cases |
| `ScopeBody.GatherScopeBody` | src/parser.cpp:28-72 | the loop computes the scan, for every starting level and with or without outer braces; without a token left it reports an early end |
| `BreadthFirst.Traverse` | src/include/llvm/ADT/BreadthFirstIterator.h:69-144 | on every finite graph the iterator yields exactly the reachable nodes, each once, in order of level, and the level at each is its shortest distance from the entry; the entry comes first, and of two other nodes the one found through an earlier parent, or as an earlier child, comes first |
| `BreadthFirst.StepConsistent` | src/include/llvm/ADT/BreadthFirstIterator.h:80-110 | one advance keeps the queue invariant: visited is yielded plus queued, one marker separates the current level from the next, and all of a level is found before it starts |
| `BreadthFirst.LevelComplete` | src/include/llvm/ADT/BreadthFirstIterator.h:98-109 | when the marker is reached the whole next level has been discovered |
| `BreadthFirst.AllReached` | src/include/llvm/ADT/BreadthFirstIterator.h:80-110 | an empty queue means that exactly the reachable nodes were visited |
| `BreadthFirst.ChildDistance` | src/include/llvm/ADT/BreadthFirstIterator.h:88-94 | an unvisited child of a node at distance d is at distance d + 1 |
| `BreadthFirst.BfIterator.ToNext` | src/include/llvm/ADT/BreadthFirstIterator.h:80-110 | the queue operations with their markers are the step on levels, and the level counter follows |
| `BitVector.BitVector.ShiftRight` | src/include/llvm/ADT/BitVector.h:581-628 | for every size and shift up to it: bit i becomes bit i + n, false beyond the end, across word moves and carries; unused bits stay zero |
| `BitVector.BitVector.ShiftLeft` | src/include/llvm/ADT/BitVector.h:630-678 | bit i becomes bit i - n, false below n; the bits pushed beyond the size are cleared |
| `BitVector.BitVector.WordShr` | src/include/llvm/ADT/BitVector.h:762-770 | whole words move to the front and zeros follow |
| `BitVector.BitVector.WordShl` | src/include/llvm/ADT/BitVector.h:744-757 | whole words move to the back, zeros before them |
| `BitVector.BitVector.SetRange` | src/include/llvm/ADT/BitVector.h:364-390 | exactly the bits of the range become true, though whole words are written |
| `BitVector.BitVector.ResetRange` | src/include/llvm/ADT/BitVector.h:403-429 | exactly the bits of the range become false |
| `BitVector.BitVector.FindFirstIn` | src/include/llvm/ADT/BitVector.h:195-226 | the first index in the range with the wanted value, or -1 exactly when there is none |
| `BitVector.BitVector.FindLastIn` | src/include/llvm/ADT/BitVector.h:230-257 | the last set index in the range, or -1 exactly when there is none |
| `BitVector.BitVector.FindLastUnsetIn` | src/include/llvm/ADT/BitVector.h:267-296 | the last clear index in the range, or -1 exactly when there is none |
| `BitVector.BitVector.Resize` | src/include/llvm/ADT/BitVector.h:341-346 | old bits are kept and new ones have the given value, though the last word already held bits beyond the size |
| `BitVector.BitVector.PushBack` | src/include/llvm/ADT/BitVector.h:466-480 | appends one bit |
| `BitVector.BitVector.PopBack` | src/include/llvm/ADT/BitVector.h:483-486 | removes the last bit |
| `BitVector.BitVector.Union` | src/include/llvm/ADT/BitVector.h:565-571 | bitwise or, growing to the larger size |
| `BitVector.BitVector.Intersect` | src/include/llvm/ADT/BitVector.h:509-523 | bitwise and; bits beyond the other vector become false |
| `BitVector.BitVector.Subtract` | src/include/llvm/ADT/BitVector.h:526-533 | bits set in the other vector become false |
| `BitVector.BitVector.Equals` | src/include/llvm/ADT/BitVector.h:499-505 | comparing words decides equality of the bits, which needs the unused bits to be zero |
| `BitVector.BitVector.SetUnusedBits` | src/include/llvm/ADT/BitVector.h:782-796 | bits beyond the size take the value, the others stay |
| `BitWord.ShrCarry` | src/include/llvm/ADT/BitVector.h:601-625 | a word shifted right with the next word's low bits carried in shows the shifted bit sequence |
| `BitWord.ShlCarry` | src/include/llvm/ADT/BitVector.h:651-675 | the mirror image for left shifts |
| `BitWord.BitDifference` | src/include/llvm/ADT/BitVector.h:372-388 | a difference of two powers is the mask of the bits between them |
| `BitWord.LowestBit` | src/include/llvm/ADT/BitVector.h:222-223 | counting trailing zeros finds the lowest set bit |
| `BitWord.HighestBit` | src/include/llvm/ADT/BitVector.h:253-254 | counting leading zeros finds the highest set bit |
| `BitWord.ZerosCounted` | src/include/llvm/ADT/BitVector.h:222-254 | trailing and leading zeros, and 64 of each where no bit is set |
| `AddressRanges.AddressRanges.Insert` | src/include/llvm/ADT/AddressRanges.h:121-140 | the vector stays sorted with gaps between non-empty ranges, and the covered addresses are the old ones and the new range's |
| `AddressRanges.Find` | src/include/llvm/ADT/AddressRanges.h:96-111 | the binary search finds a range exactly when some range of the vector includes the whole query |
| `AddressRanges.CoveredByOne` | src/include/llvm/ADT/AddressRanges.h:116-119 | since ranges never touch, an interval whose addresses are all covered lies in one range |
| `AddressRanges.SpliceKeeps` | src/include/llvm/ADT/AddressRanges.h:129-139 | replacing the run that touches the new range by its hull keeps the vector normal and adds just the new addresses |
| `AddressRanges.AddressRanges.ContainsAddress` | src/include/llvm/ADT/AddressRanges.h:68-70 | membership of an address; the query for the last address wraps around to an empty one, and no range can hold that address |
| `AddressRanges.AddressRanges.ContainsRange` | src/include/llvm/ADT/AddressRanges.h:71-73 | a non-empty range is contained exactly when all its addresses are |
| `AddressRangesMap.AddressRangesMap.Insert` | src/include/llvm/ADT/AddressRanges.h:165-206 | afterwards an address has its old value if it had one, else the new value if it lies in the range, else none; entries stay sorted, disjoint and non-empty; the splitting loop ends |
| `AddressRangesMap.MapsOnce` | src/include/llvm/ADT/AddressRanges.h:158-164 | no address has two values |
| `AddressRangesMap.AddressRangesMap.Lookup` | src/include/llvm/ADT/AddressRanges.h:77-83 | a found value is the only one the address has, and nothing is found only for unmapped addresses |
| `CoalescingBitVector.BitVector.Union` | src/include/llvm/ADT/CoalescingBitVector.h:163-180 | set union, provided not both sets contain the largest index; every interval inserted on the way is disjoint from what is present |
| `CoalescingBitVector.InsertsNewUnlessMax` | src/include/llvm/ADT/CoalescingBitVector.h:163-180 | a union inserts only new indices if and only if not both sets contain the largest index |
| `CoalescingBitVector.BitVector.Intersect` | src/include/llvm/ADT/CoalescingBitVector.h:183-192 | set intersection; inserted intervals are disjoint |
| `CoalescingBitVector.BitVector.IntersectWithComplement` | src/include/llvm/ADT/CoalescingBitVector.h:195-225 | set difference, each overlap being cut out of the one interval that holds it |
| `CoalescingBitVector.BitVector.Reset` | src/include/llvm/ADT/CoalescingBitVector.h:135-159 | removes one index, splitting its interval; removing an absent index changes nothing |
| `CoalescingBitVector.BitVector.Test` | src/include/llvm/ADT/CoalescingBitVector.h:119-125 | membership |
| `CoalescingBitVector.BitVector.TestAndSet` | src/include/llvm/ADT/CoalescingBitVector.h:128-131 | adds an index, present or not |
| `CoalescingBitVector.BitVector.Equals` | src/include/llvm/ADT/CoalescingBitVector.h:227-238 | comparing intervals pairwise decides equality of the sets |
| `CoalescingBitVector.SameMembersSame` | src/include/llvm/ADT/CoalescingBitVector.h:227-238 | coalesced intervals are determined by their members |
| `CoalescingBitVector.PartsRightUnlessWrapped` | src/include/llvm/ADT/CoalescingBitVector.h:419-443 | the parts of an interval outside the overlaps are exactly its uncovered indices, if and only if no overlap that touches it ends at the largest index |
| `CoalescingBitVector.GetNonOverlappingParts` | src/include/llvm/ADT/CoalescingBitVector.h:419-443 | the loop computes those parts, wrap-around included |
| `CoalescingBitVector.OverlapsExact` | src/include/llvm/ADT/CoalescingBitVector.h:403-414 | the overlaps of two interval maps hold the common members |
| `CoalescingBitVector.OverlapsSorted` | src/include/llvm/ADT/CoalescingBitVector.h:405-412 | and are sorted and disjoint |
| `CoalescingBitVector.InsertInterval` | src/include/llvm/ADT/CoalescingBitVector.h:399 | inserting an absent interval adds its indices and coalesces with both neighbours |
| `CombinationGenerator.PerformGeneration` | src/include/llvm/ADT/CombinationGenerator.h:71-114 | the callback sees the enumeration from its start, up to the first call that aborts, or all of it |
| `CombinationGenerator.AllOnceInOrder` | src/include/llvm/ADT/CombinationGenerator.h:71-114 | the k-th combination has the mixed-radix digits of k; every tuple of choices occurs once, in lexicographic order of the choice indices |
| `CombinationGenerator.TickAddsOne` | src/include/llvm/ADT/CombinationGenerator.h:80-92 | incrementing adds one to the number the positions stand for, and reports a wrap exactly from the last combination to the first |
| `CombinationGenerator.IncrementState` | src/include/llvm/ADT/CombinationGenerator.h:80-92 | the loop over the iterators is that increment |
| `CombinationGenerator.BeforeIsLess` | src/include/llvm/ADT/CombinationGenerator.h:76-79 | lexicographic order of positions is order of the numbers |
| `CombinationGenerator.ValueExpand` | src/include/llvm/ADT/CombinationGenerator.h:76-79 | digits and numbers below the product correspond one to one |
| `CombinationGenerator.NumCombinations` | src/include/llvm/ADT/CombinationGenerator.h:130-137 | the number of combinations is the length of the enumeration |
| `Tokenizer.Lexer.Tokenize` | src/tokenizer.cpp:164-274 | terminates although it steps back; cuts the padded text into pieces of which each token ends at the first character that may not continue it, and returns their texts, kinds, lines and columns and the text still pending, from any carried-over state |
| `Tokenizer.CutUnique` | src/tokenizer.cpp:195-270 | there is only one such cut of a text |
| `TokenizerText.NothingLost` | src/tokenizer.cpp:164-274 | carried-over text and input are the pieces of the cut and the pending rest; token texts and pending text are the same without the dropped pieces |
| `TokenizerText.Dropped` | src/tokenizer.cpp:190-205 | a dropped piece is one character that begins no token, read outside of any |
| `TokenizerText.LeavesOffAtLineEnd` | src/tokenizer.cpp:162-184 | every file leaves its last newline pending for the next one, unless it ends inside a string or character literal |
| `TokenizerText.LineNumberLag` | src/tokenizer.cpp:230-237 | the line counter falls behind the newlines read by exactly those inside string and character literals |
| `LanguageTables.StandardTables` | src/tokenizer.cpp:26-68 | with the language's tables, newlines end every token but quoted ones, and only they begin an end-of-line token |
| `TokenRules.StartIs` | src/tokenizer.cpp:26-34 | which kind of token every character begins, written out |
| `TokenRules.StaysIs` | src/tokenizer.cpp:36-68 | which characters end a token of every kind, and which pairs do not, written out |
| `TokenRules.PairIsOneToken` | src/tokenizer.cpp:47-63 | a pair such as `//`, `->`, `==` or `..` outside of a token is one piece of every cut, if the character behind it ends it |
| `TokenRules.NoPairIsTwoTokens` | src/tokenizer.cpp:212-217 | two punctuation characters that are no pair are two pieces |
| `TokenRules.PunctuationToken` | src/tokenizer.cpp:208-222 | punctuation goes on exactly as long as its characters are joined |
| `TokenRules.NameToken` | src/tokenizer.cpp:38-38 | letters and digits behind a letter are one name, up to a symbol, a point or a break |
| `TokenRules.NameEnds` | src/tokenizer.cpp:38-38 | what extends a name, and what ends it |
| `TokenRules.NumberToken` | src/tokenizer.cpp:39-39 | digits, or digits around points, are one number, up to a symbol, a break or two points |
| `TokenRules.RangeTokens` | src/tokenizer.cpp:65-68 | `1..2` is a number, the range operator and a number |
| `TokenRules.QuotedToken` | src/tokenizer.cpp:40-41 | a literal goes from its quote to the next one like it |
| `TokenRules.BlankOrNewline` | src/tokenizer.cpp:32-33 | blanks and tabs are dropped, a newline is a token |
| `TokenRules.Labels` | src/tokenizer.cpp:70-73 | numbers with a point are floats, and nothing else is relabelled |
| `Comments.CommentsRemoved` | src/tokenizer.cpp:293-354 | joining and then removing comments leaves exactly the tokens outside comments, if and only if every comment ends (or its opening token is the last) and none opens right after a block comment |
| `Comments.TokenVector.JoinCommentTokens` | src/tokenizer.cpp:293-340 | the in-place erasing with index resets yields the joined tokens behind a dummy |
| `Comments.TokenVector.RemoveCommentTokens` | src/tokenizer.cpp:342-354 | all comments behind the first token go, the rest stays in order |
| `Comments.CommentLosesCharacter` | src/tokenizer.cpp:328-336 | a joined line comment loses the last character of its text |
| `CommentRules.Delimiters` | src/tokenizer.cpp:302-326 | what opens and ends comments, by the texts of the tokens |
| `CommentRules.LineIsNoCode` | src/tokenizer.cpp:302-326 | the tokens from `//` to the end of the line are no code; the end of the line is |
| `CommentRules.BlockIsNoCode` | src/tokenizer.cpp:302-326 | the tokens from `/*` to the next `*/` are no code |
| `Escapes.UniversalEscape` | src/codegen.cpp:801-844 | a `u` or `U` escape emits UTF-8 that a strict decoder reads back as its value, if and only if that is a code point and no surrogate |
| `Escapes.RangeChecked` | src/codegen.cpp:819-841 | a complete `u` or `U` escape is refused as out of range if and only if its value lies between 0x110000 and 0x7FFFFFFF; every other one is accepted |
| `Escapes.EmitsUtf8` | src/codegen.cpp:822-838 | what an accepted escape emits is the UTF-8 of one character if and only if the value is no surrogate, and not a negative `int` with a low byte above 0x7F |
| `Escapes.NegativeEscape` | src/codegen.cpp:822-823 | the failing input for the range: `\UFFFFFFFF` emits the byte 0xFF |
| `Escapes.SurrogateEscape` | src/codegen.cpp:828-832 | the failing input below the limit: `\uD800` emits three bytes that are not UTF-8 |
| `Escapes.EncodeDecodes` | src/codegen.cpp:821-843 | the emitted bytes are the well-formed UTF-8 of section 3 of RFC 3629, surrogates excepted |
| `EscapeValues.DecodedIsEncoded` | src/codegen.cpp:822-840 | the other way round: what a strict decoder reads is what is emitted for its value, and that is a code point and no surrogate |
| `Escapes.NeverLonger` | src/codegen.cpp:727-866 | unescaping never makes a text longer |
| `Escapes.EscapeRoundTrip` | src/strops.cpp:299-309 | unescaping gives an escaped text back if and only if it contains no backslash |
| `Escapes.UnescapeString` | src/codegen.cpp:727-866 | the loop computes the decoding, failures included |
| `EscapeValues.ControlEscapes` | src/codegen.cpp:747-767 | the seven escapes of control characters give 7 to 13, and the rest follows |
| `EscapeValues.LiteralEscapes` | src/codegen.cpp:768-779 | quotes, backslash, question mark and every character that is no escape give themselves |
| `EscapeValues.HexEscape` | src/codegen.cpp:781-801 | `\x` and all hexadecimal digits behind it give one byte, the number modulo 256; none is refused |
| `EscapeValues.OctalEscape` | src/codegen.cpp:845-859 | one to three octal digits, as many as there are, give one byte |
| `EscapeValues.UniversalDecodes` | src/codegen.cpp:802-843 | a complete `u` or `U` escape gives the bytes of its value, and the rest follows |
| `EscapeValues.ShortEscape` | src/codegen.cpp:818-820 | one with too few digits is refused |
| `EscapeValues.NoEscape` | src/codegen.cpp:732-743 | other characters give themselves; a backslash at the end is refused |
| `EscapeValues.DigitValues` | src/codegen.cpp:784-792 | digits by their codes |
| `Escapes.ReplaceEscapeSymbols` | src/strops.cpp:299-309 | newlines, and nothing else, become two characters |
| `Overloads.Resolution` | src/codegen.cpp:272-299 | with up to 38 arguments, the first of the nearest matching functions is found whenever one matches; else a refusal fails, and a function with the right name but another number of arguments is returned only when nothing refuses |
| `OverloadChoice.FloatPreferred` | src/codegen.cpp:272-299 | for an argument of a floating-point type, no candidate with an integer parameter wins over one with a floating-point parameter |
| `OverloadChoice.NearestInteger` | src/codegen.cpp:272-299 | among integer parameters the one fewest places away in the enumeration wins, the first on a tie |
| `OverloadChoice.DoubleForFloat` | src/codegen.cpp:272-299 | of `f(int32)` and `f(double)`, the second is called with a `float` |
| `OverloadChoice.FoundAsAsked` | src/codegen.cpp:272-299 | what is found has the name, and is a member function exactly if one was asked for |
| `OverloadChoice.Costs` | src/codegen.cpp:147-174 | what an argument costs, in numbers: the places between two integer or two floating-point types, 13 or 2 for anything else, nothing for a parameter that is no number |
| `OverloadChoice.CostsAdd` | src/codegen.cpp:141-174 | the costs of several arguments add up |
| `OverloadChoice.Refusals` | src/codegen.cpp:155-171 | a parameter that must be exact refuses every other type, if it is a number |
| `Overloads.ExactResolution` | src/codegen.cpp:300-324 | the exact lookup succeeds if and only if some function scores zero, and returns the first; with up to 5041 arguments that is one whose arguments all cost nothing |
| `Overloads.ScoreZero` | src/codegen.cpp:136-175 | a score is zero if every argument has the same type, a type paired with it where types were inferred, or a parameter that is no number; and with up to 5041 arguments only then |
| `Overloads.ZeroApart` | src/codegen.cpp:138-174 | with more arguments the 16-bit sum can wrap around to zero: 5041 is exact |
| `Overloads.TakenForAnother` | src/codegen.cpp:115-135 | which inferred types are taken for each other: those nine places apart in the enumeration, such as the signed 64-bit type and the unsigned 8-bit one |
| `Overloads.TiersApart` | src/codegen.cpp:136-175 | scores of matching functions stay below those of refusals for up to 38 arguments and no more |
| `Overloads.TierScore` | src/codegen.cpp:136-175 | the score tells matches, refusals, wrong arity and wrong name apart |
| `Overloads.SignsStayApart` | src/codegen.cpp:115-135 | a signed type is never taken for its unsigned counterpart, contrary to the comment there: the offset subtracted is not the one between them |
| `Overloads.CompareMatch` | src/codegen.cpp:136-175 | the sum of the penalties in 16 bits, or 500, 999 or 1000 for a refusal, a wrong number of arguments or a wrong name |
| `Overloads.GetFunctionFromID` | src/codegen.cpp:272-299 | the first of the least scores among those that pass the member filter, unless it is a refusal |
| `Overloads.GetExactFunctionFromID` | src/codegen.cpp:300-324 | the first of the least scores, if it is zero |
| `DigitStrings.LongDivision` | src/strops.cpp:433-462 | decimal digits without a spare leading zero, never more than the quotient; they are the quotient if and only if no remainder, with the next digit, exceeds 32 bits; what is read before the division begins must not overflow an `int` |
| `DigitStrings.SmallDivisor` | src/strops.cpp:433-462 | no remainder does so for divisors up to 429496729, and no overflow happens up to 214748364 |
| `DigitStrings.SmallNumber` | src/strops.cpp:433-462 | neither happens for numbers up to 2147483647 |
| `DigitStrings.RemainderWraps` | src/strops.cpp:449-454 | a failing input: 8589934596 divided by 429496730 |
| `DigitStrings.MultiplyHexByInteger` | src/strops.cpp:312-364 | the text of the product for every multiplier, negative ones included, and nothing for anything but hexadecimal digits; no intermediate product may overflow an `int` |
| `DigitStrings.ProductShown` | src/strops.cpp:312-364 | that text shows the product if and only if it is not negative and less than ten times the power of 16 that the digits reach, since the last carry is written as one decimal digit |
| `DigitStrings.ProductUpper` | src/strops.cpp:344-351 | the digits of a product that is not negative are in upper case |
| `DigitStrings.OneDigitFits` | src/strops.cpp:340-340 | for one digit, a product fits exactly if it is in the range of an `int` |
| `DigitStrings.ColonForTen` | src/strops.cpp:357-361 | the failing input: F times 11 is written as `:5` |
| `DigitStrings.SmallMultiplier` | src/strops.cpp:340-341 | nothing overflows for multipliers up to 0x7FFFFFF either way |
| `DigitStrings.DecrementSubtracts` | src/strops.cpp:366-388 | on upper-case hexadecimal digits: one less, modulo 16 to their number |
| `DigitStrings.SubOneFromHex` | src/strops.cpp:366-388 | in place, digits after the index untouched |
| `DigitStrings.Predecessors` | src/strops.cpp:366-388 | what becomes of every character that needs no borrow |
| `DigitStrings.IncrementAdds` | src/strops.cpp:391-410 | on digits and lower-case letters: one more, modulo 36 to their number |
| `DigitStrings.Successors` | src/strops.cpp:391-410 | what becomes of every byte |
| `DigitStrings.AddOneToHexStrInRange` | src/strops.cpp:412-430 | in place, characters outside the range untouched |

## Left out

- LLVM itself: values, types other than 32-bit integers and flags, passes, object emission, division, floating point, pointers and structures. Callees are events with a result that the world supplies.
- `return` inside a branch or loop, and `while`, `break`, `continue` and `goto`, which have no code generator.
- Stack slots are numbered rather than instructions at the head of the entry block; the table of named values per node is a chain of scopes; conditions are a separate sort.
- Function lookup during code generation: every callee resolves. The choice among overloads is modelled on its own.
- SyntaxTree.FixPrecedence: node fields other than kind, token, code generator and children are left out; null children are too.
- OperatorTags.TagsStay: is stated for trees whose left operands fit; elsewhere operators themselves may be lost, and the condition is stated for one root at a time (`OperatorTags.TagsAtRoot`).
- BracketAccess.BuiltAndRepaired: what is inside of an operand, such as a parenthesised term, has left operands that fit; `OpaqueOperands.ExpressionKept` does without this and compares operands by what they settle to. Unary operators and declarations are other nodes.
- Tokenizer.Lexer.Tokenize: the text of the current line, kept for error messages, is not modelled; the tables are a parameter.
- `labelSubTokens`, a lookup table.
- Comments.TokenVector.JoinCommentTokens: tokens are values, so that marking a token as a comment is not seen through other pointers to it.
- ScopeBody.GatherScopeBody: on an empty token vector the source's size minus one wraps around and it reads beyond the vector, where the model ends early; printing and ending the process on an unmatched brace is a result; the index is a natural number. The variant that appends is left out.
- Escapes.UnescapeString: overflow of `int` in a `U` escape is modelled as wrapping around; exceptions are results; characters are bytes.
- DigitStrings.MultiplyHexByInteger: multipliers for which an intermediate product overflows an `int` are excluded; the source does not define what happens.
- DigitStrings.LongDivision: empty numbers, characters other than digits and a zero divisor are excluded, as are numbers whose first digits overflow an `int` before they reach the divisor; the source does not define what happens.
- DigitStrings.IncrementAdds: says nothing of numbers with characters other than digits and lower-case letters; what becomes of such characters is in `DigitStrings.Successors`.
- BreadthFirst.Traverse: the child iterator in queue elements, which is empty whenever a comparison could see it, and the width of the level counter.
- BitVector.BitVector.Resize: sizes are unbounded, while the source wraps near 2^32; words have 64 bits, as numbers below 2^64 with bitwise operations defined bit by bit. Overlapping word copies are modelled as `memmove`, as the source's comment says.
- BitVector.BitVector.Intersect: `^=`, `flip`, `count`, `any`, `all`, `anyCommon`, `test(RHS)`, mask operations and `apply` are left out.
- AddressRanges.AddressRanges.Insert: a range whose start exceeds its end counts as empty, where the source asserts; partition points are written out as binary searches.
- CoalescingBitVector.InsertInterval: the interval map underneath, a B+ tree, is assumed to hold sorted disjoint coalesced intervals; its `find`, `insert`, `erase` and overlap iteration are modelled on a sequence. The iterator over indices is left out.
- CombinationGenerator.NumCombinations: the product is unbounded, while `size_t` may wrap.
- CombinationGenerator.PerformGeneration: the callback is a function of all combinations it has seen.
- Overloads.Resolution: types are the numbers of their enumeration; the lookups by name only or by syntax nodes are left out.
- `optimizeASTNode` and `unifyNodes`, struct, member-access, cast and prototype generation, modules and files, console output and option handling.
