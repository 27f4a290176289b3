# Models of some LLVM algorithms

Dafny models of eight parts of the repository, each with the properties its callers rely on.
`dfyconfig.toml` lists the files. `Basics` holds what several of them need.

Code that changes things in place is modelled by classes and methods with loops; each method is proved against a
specification, and the properties are proved of the specification. Code that computes by recursion is modelled by
functions. Sorting, hash table order, the alias oracle, the dominator tree, the loop forest, known bits and the order of a
walk are parameters with stated contracts.

## The parts

**BrainF** (`Machines`, `BrainFLang`, `BrainFCoalesce`, `BrainFRuns`, `BrainFIR`, `BrainFCode`, `BrainFSim`,
`BrainFCorrect`, `BrainFInvariant`, `BrainFCompiler`). A one-pass compiler from BrainF to blocks with phi nodes.
`BrainFLang` gives the language its meaning, as a machine that takes one command at a time. `BrainFIR` gives the blocks
theirs, as a machine that crashes on a register that was never assigned, on an access outside the allocation and on running
off a block. The compiler is a class with the original's fields (insertion point, current head, lookahead); loops are
compiled by recursion, and a loop's phi is finished after its body. It fails exactly when the brackets do not match; what it
emits is well formed, and it cannot be told apart from the program. With bounds checks no run ever crashes. A check comes
once for every run of moves, so a run may pass over an end of the tape and come back: there, and only there, a checked
program and the one taken character by character part (`BrainFRuns`).

**Alias sets** (`AliasSets`, `AliasSetLimit`, `AliasSetOps`, `AliasSetTracker`). Incremental merging of sets of pointers with forwarding,
reference counts, a running total and a saturated state. The class follows the original's fields; every method equals a
function of the whole state, and those keep an invariant from which it follows that the live sets are the connected
components of the alias relation. It saturates exactly when more than 250 pointers are connected with one they need not
alias.

**Control flow graphs** (`Cfg`, `Backedges`, `Reachability`). The search for back edges with an explicit stack, and the
reachability query with its short cuts and its limit: it says yes exactly when there is a path or the walk, which skips
loops, can come to 32 blocks.

**Address arithmetic** (`Bits`, `LinearExpr`, `ExactLinear`, `SignedSums`, `Distance`, `ExtendedWords`, `PointerOffsets`,
`GepAlias`).
Decomposing an index into scale, value and offset, subtracting lists of indices in 64-bit arithmetic, and the tests on the
difference of two addresses. Where the code does not do what one might expect of it, the model says exactly when it does:

- Scale times extended value plus offset is the expression except for what sign extensions lose of the constants. The
  reference is the line that comes out when every constant is extended by itself; the decomposition is right if and only if
  its constants are those, and then in every environment (`ExactLinear.ReadsRightIff`). For sums, that is so if and only if
  below every sign extension looked through the signed constants add up to something that fits
  (`SignedSums.RightIffSumsFit`); for a product, if and only if the sign bit of the constant is not set or the variable is a
  multiple of what the extension adds (`SignedSums.RightIffFactorFits`). A sign extension of something zero-extended is taken
  for a zero extension, which is right if and only if what it extends is not negative (`SignedSums.RightIffNotNegative`).
- The test for two variables a constant apart (`lib/Analysis/BasicAliasAnalysis.cpp:1796-1848`) goes by the least distance
  that the recorded constants say. Around the end of the address space:
  - On the true distance it is right for all words, lengths that do not overflow and constant offsets if and only if the
    scale is INT64_MIN, or scale times 2 to the width fits into the address space and, for variables that are both sign- and
    zero-extended, scale times 2 to the width with the sign bits leaves nothing over, going round the address space, or
    no less than scale times 2 to the width (`ExtendedWords.RightIffScaleFits`). `GepAlias.MixedExtensionsMislead` is an
    input that fails the last condition only.
  - On a recorded distance it is then right if and only if the least distance recorded is no more than the true one
    (`ExtendedWords.RightIffNoNearer`), which the constants extended by themselves tell (`GepAlias.NoNearerByLines`,
    `SignedSums.DistanceIff`).
  - It is right for all lengths up to a bound if and only if the bound and the constant offset do not overflow together
    (`ExtendedWords.RightIffLengthsFit`).

  Where distances stay within half the address space it is right, whatever the scale, if and only if the least distance
  recorded is no more than the true one (`ExtendedWords.InReachIffNoNearer`).

**Block frequencies** (`BranchProbability`, `Distribution`, `WeightRange`, `MassDistribution`, `LoopUnwrap`,
`IrreducibleHeaders`). Exact scaling in 32-bit digits, combining and normalizing weights, dithering a mass over them,
unwrapping loops, and choosing the headers of an irreducible part. The assertion that the normalized total fits into 32 bits
can fail when the sum of the weights overflows 64 bits; for which sums and numbers of targets it cannot is
`WeightRange.EveryListFitsIff`.

**Branch probabilities** (`PostDominance`, `EdgeWeights`). Marks on blocks that certainly end in unreachable code or come
to a cold call, and probabilities from profile weights.

**A barrier** (`Barrier`). Threads that wait for one another, as the methods that run under the lock and as a step system
over all interleavings.

**Nested names** (`ItaniumNames`). The parser for names mangled as the Itanium C++ ABI, section 5.1, says, and a printer
it inverts.

## Model

| member | source | states |
|---|---|---|
| BrainFCompiler.BrainF.Parse | examples/BrainF/BrainF.cpp:53-63 | Compilation fails exactly when the brackets of the text do not match; otherwise the graph is well formed, and it is the compiled form of every program the text spells, runs added up. |
| BrainFCompiler.BrainF.EmitHeader | examples/BrainF/BrainF.cpp:65-190 | The entry block allocates and clears the tape, computes its end if moves are checked, puts the head in the middle; the end and error blocks are made, and the invariant of the graph under construction is set up. |
| BrainFCompiler.BrainF.Readloop | examples/BrainF/BrainF.cpp:192-476 | One level of brackets: succeeds exactly on text that closes it, reads just up to the closing bracket, appends the code of that text at the insertion point, leaves all other blocks alone, closes the loop with its second phi value, and keeps every emitted use dominated. |
| BrainFCompiler.BrainF.ReadSymbols | examples/BrainF/BrainF.cpp:320-424 | Reading ahead: the current symbol is complete afterwards, runs only once another symbol or the end has been seen, and the symbols still to come are unchanged; a bracket that ends a run becomes the lookahead and is not lost. |
| BrainFCompiler.BrainF.OpenLoop | examples/BrainF/BrainF.cpp:292-312 | Branch to a new test block that starts with a phi of the head so far, and go on in a new body block; the graph invariant holds although the phi is still missing a value. |
| BrainFCompiler.BrainF.CloseLoop | examples/BrainF/BrainF.cpp:432-467 | Branch back, complete the phi, load, compare, branch, and a one-value phi after the loop; the graph invariant holds again. |
| BrainFCompiler.BrainF.EmitBoundsCheck | examples/BrainF/BrainF.cpp:253-274 | Both comparisons, and a branch to the error block or to a new block, in which compilation goes on. |
| BrainFInvariant.FinishedIsWellFormed | examples/BrainF/BrainFDriver.cpp:148-152 | A finished graph that keeps the invariant is well formed: one terminator for each block, phis first with one value for each predecessor, single assignment, every use dominated on every path from the entry. |
| BrainFCompiler.BalancedHasProgram | examples/BrainF/BrainF.cpp:426-475 | Text with matching brackets is the text of a program, so the failure condition shuts out nothing else. |
| BrainFCoalesce.ShorteningPreservesMeaning | examples/BrainF/BrainF.cpp:324-424 | Without bounds checks, adding up runs of moves and of changes cannot be noticed: same input, output, tape and way of ending, for the head see the next row. |
| BrainFCoalesce.ShortenedEnds | examples/BrainF/BrainF.cpp:324-424 | When the program has run to its end so has its shortened form, with the same head, tape, trace and rest of the input. |
| BrainFCoalesce.ShortenedEndsBack | examples/BrainF/BrainF.cpp:324-424 | The other way round. |
| BrainFCoalesce.FlattenShorten | examples/BrainF/BrainF.cpp:324-424 | Adding up runs in the text as it is read gives the text of the program with its runs added up, in loops as well. |
| BrainFCorrect.CompiledRunsProgram | examples/BrainF/BrainF.cpp:192-476 | For every program, tape size, input and allocation contents, checked or not, the graph and the program refine each other: trace, tape, end, crash and error exit. |
| BrainFCorrect.UncheckedRunsCharacters | examples/BrainF/BrainF.cpp:192-476 | Without bounds checks the graph runs like the program taken character by character: trace, tape, and whether and how it ends; getchar's end of file is read as 255. |
| BrainFCorrect.UncheckedFinalHead | examples/BrainF/BrainF.cpp:192-476 | When the program taken character by character runs to its end, so does the graph, with that program's head, tape and trace. |
| BrainFCorrect.UncheckedReturned | examples/BrainF/BrainF.cpp:192-476 | When the graph returns, the program taken character by character has run to its end, with the head that the graph has. |
| BrainFCorrect.FinalHead | examples/BrainF/BrainF.cpp:426-475 | Checked or not, when the program the graph was compiled from (runs added up) runs to its end, the graph returns with its head in the register the compiler ended with. |
| BrainFCorrect.CheckedNeverCrashes | examples/BrainF/BrainF.cpp:118-127 | With bounds checks and a tape that is not empty, no reachable state of any run has crashed. |
| BrainFCorrect.CheckedAccessesOnTape | examples/BrainF/BrainF.cpp:246-276 | In every reachable state, the load or store about to be made is on the tape, and all registers the instruction reads are assigned, through any nesting of loops and phis. |
| BrainFCorrect.LeavingTheTape | examples/BrainF/BrainF.cpp:253-274 | A run of moves that ends off the tape takes control to the error block, from there with the message printed to the end block, and out; tape and earlier output stay. |
| BrainFRuns.RunsPartIffPasses | examples/BrainF/BrainF.cpp:246-276 | For any state about to take a run of moves with bounds checks: character by character it leaves the tape exactly when some prefix of the run is off it, in one move exactly when the total is; the two part exactly when a prefix is off the tape and the total on it, and otherwise show the same or come to the same state. |
| BrainFRuns.PassingOverTheEnd | examples/BrainF/BrainF.cpp:253-274 | A program of two moves on one cell at which they do part: the characters leave the tape with the message, the coalesced run does nothing. |
| BrainFRuns.CheckedShorteningPreservesMeaning | examples/BrainF/BrainF.cpp:253-274 | With bounds checks, a program none of whose runs passes over an end and comes back cannot be told apart from its shortened form. |
| BrainFRuns.OneWayPreservesMeaning | examples/BrainF/BrainF.cpp:253-274 | In particular a program every maximal run of which goes one way, on every tape and input. |
| BrainFCorrect.CheckedRunsCharacters | examples/BrainF/BrainF.cpp:246-276 | There the checked graph runs like the checked program taken character by character. |
| AliasSets.SameSetIffConnected | lib/Analysis/AliasSetTracker.cpp:305-348 | In an unsaturated tracker, two pointers resolve to the same set if and only if a chain of pairwise aliasing pointers connects them. |
| AliasSetTrackers.AliasSetTracker.AddPointers | lib/Analysis/AliasSetTracker.cpp:350-352 | After any sequence of additions the invariant holds (total, reference counts, lists, must and may flags), the sets are the connected components, or, saturated, exactly one set is live and every pointer resolves to it. It is saturated if and only if more than 250 pointers are connected with one they need not alias, so never by 250 pointers. |
| AliasSetTrackers.AliasSetTracker.AddPointer | lib/Analysis/AliasSetTracker.cpp:591-604 | Adds one pointer, saturates exactly when more than 250 pointers are connected with one they need not alias, and returns the set the pointer resolves to. |
| AliasSetLimit.TotalIsLoose | lib/Analysis/AliasSetTracker.cpp:591-604 | The total that is compared with the threshold is the number of those pointers. |
| AliasSetTrackers.AliasSetTracker.GetAliasSetForPointer | lib/Analysis/AliasSetTracker.cpp:305-348 | The invariant is kept in all four cases: saturated, known, merged with what it aliases, or in a new set. |
| AliasSetTrackers.AliasSetTracker.MergeAliasSetsForPointer | lib/Analysis/AliasSetTracker.cpp:264-280 | One pass merges all live sets the pointer aliases into the first of them; in the state it leaves, no other live set aliases the pointer. |
| AliasSetTrackers.AliasSetTracker.MergeAllAliasSets | lib/Analysis/AliasSetTracker.cpp:554-589 | Folds every set, forwarding or not, into a new one that aliases everything; records are untouched and the invariant of a saturated tracker holds. |
| AliasSetTrackers.AliasSetTracker.MergeSets | lib/Analysis/AliasSetTracker.cpp:49-109 | The whole state after one set's pointers are spliced onto another's and the emptied set forwards to it, with flags, sizes, total and reference count. |
| AliasSetTrackers.AliasSetTracker.AddToSetOf | lib/Analysis/AliasSetTracker.cpp:128-164 | The whole state after a pointer is put into a set, which may stop being a must-alias set. The assertion that a must-alias set gets no pointer it does not alias holds; every caller guarantees it. |
| AliasSetTrackers.AliasSetTracker.GetForwardedTarget | include/llvm/Analysis/AliasSetTracker.h:276-286 | The end of the forwarding chain; the set then forwards to it directly, no other set's target changes, live sets and records are untouched, and reference counts stay exact although sets may go away. |
| AliasSetTrackers.AliasSetTracker.DropReference | include/llvm/Analysis/AliasSetTracker.h:185-189 | Gives up a reference, removing the set with its last one, which gives up the set's own reference in turn. |
| AliasSetTrackers.AliasSetTracker.GetAliasSet | include/llvm/Analysis/AliasSetTracker.h:106-115 | The live set of a known pointer, recorded for it; invariant and live sets are kept. |
| AliasSetOps.MergeShape | lib/Analysis/AliasSetTracker.cpp:49-109 | After merging, whatever resolved to either set resolves to the merged one, and nothing else changes its target. |
| AliasSetOps.MergeCore | lib/Analysis/AliasSetTracker.cpp:49-109 | Merging keeps lists, forwarding, records, reference counts, total and the flag of a saturated tracker right. |
| AliasSetOps.MergeMust | lib/Analysis/AliasSetTracker.cpp:49-79 | After merging, the flag is still exact: a must-alias set is one whose pointers all must alias the first. |
| AliasSetOps.AliasesExact | lib/Analysis/AliasSetTracker.cpp:185-220 | Asking only the first pointer of a must-alias set gives the same answer as asking every pointer. |
| AliasSetOps.DropRefCore | lib/Analysis/AliasSetTracker.cpp:111-126 | The cascade of removals leaves the structure right, with total and counts exact, and takes away only sets nothing referred to. |
| AliasSetOps.FoldEnd | lib/Analysis/AliasSetTracker.cpp:554-589 | Once every set has been folded, the tracker is saturated: the new set is the only live one. |
| Backedges.FindFunctionBackedges | lib/Analysis/CFG.cpp:27-66 | Terminates; every reported edge closes a cycle that the entry leads to; without the reported edges no cycle is left among the blocks the entry leads to; and leaving out any one of them would leave a cycle, so the set is minimal. For any graph, with multiple edges and self-loops. |
| Backedges.ReportedIffCyclic | lib/Analysis/CFG.cpp:27-66 | Nothing is reported exactly when the entry leads to no cycle. |
| Reachability.IsPotentiallyReachableFromMany | lib/Analysis/CFG.cpp:130-172 | The answer is true if and only if there is a path from some start block, or the walk can come to 32 blocks, those inside the loops it skips not counted; with or without dominators and loops. |
| Reachability.IsPotentiallyReachable | lib/Analysis/CFG.cpp:174-184 | The same between two blocks. |
| Reachability.IsPotentiallyReachableInstruction | lib/Analysis/CFG.cpp:186-236 | The answer is true if and only if control can get from one instruction to the other, in one block or two, or the walk, made only where neither is in the entry block, can come to 32 blocks, or the question is about the way out of the entry block into another; there it is right exactly when the entry reaches that block. |
| Reachability.ManyLedReached | lib/Analysis/CFG.cpp:130-172 | The limit is not hit unless 32 blocks can be reached. |
| Reachability.ManyAheadReached | lib/Analysis/CFG.cpp:186-236 | Nor is it between instructions. |
| Reachability.EntryAnswersTrue | lib/Analysis/CFG.cpp:229-230 | Two blocks without edges, where that answer is wrong although far fewer than 32 blocks are reachable. |
| Reachability.GetOutermostLoop | lib/Analysis/CFG.cpp:113-120 | Climbing parents ends at the loop around all others, in any nesting. |
| Reachability.NothingLeft | lib/Analysis/CFG.cpp:142-171 | An empty worklist means the target is unreachable, although loops were skipped straight to their exits. |
| LinearExpr.Decomposes | lib/Analysis/BasicAliasAnalysis.cpp:221-372 | For every expression, depth cutoff and amount of extension, scale times value plus offset is the expression modulo 2 to the number of bits kept. |
| LinearExpr.LinearIsExact | lib/Analysis/BasicAliasAnalysis.cpp:221-372 | Without sign extension, in all bits, for every environment in which nothing is poison. |
| LinearExpr.LinearIsExactInLowBits | lib/Analysis/BasicAliasAnalysis.cpp:218-372 | With sign extension, scale times the value as it is plus offset is right in as many low bits as the value has; what callers read, with the value extended, is the subject of the rows below. |
| LinearExpr.ExtensionsCounted | lib/Analysis/BasicAliasAnalysis.cpp:320-367 | Width of the returned value plus all counted extension bits is the width that was started with. |
| ExactLinear.TrueLineReadsRight | lib/Analysis/BasicAliasAnalysis.cpp:221-372 | For every expression and environment in which nothing is poison: with every constant extended by itself, scale times the value, extended as the decomposition counts, plus offset is the expression, modulo 2 to its width, provided no negative number is under a sign extension that is taken for a zero extension. |
| ExactLinear.ReadsRightIff | lib/Analysis/BasicAliasAnalysis.cpp:221-372 | The recorded scale and offset do the same if and only if their differences from the true ones cancel; where the scale is the true one, if and only if the offset is, in every environment or in none. |
| ExactLinear.CountsMatch | lib/Analysis/BasicAliasAnalysis.cpp:329-363 | The counted bits of zero and sign extension are those of the extensions between the returned value and the expression, a sign extension outside a zero extension counting as zero extension. |
| ExactLinear.PushAll | lib/Analysis/BasicAliasAnalysis.cpp:336-355 | What looking through extensions rests on: they move inwards past an operation that does not wrap, as a signed one for sign extensions and as an unsigned one for zero extensions. |
| SignedSums.RightIffSumsFit | lib/Analysis/BasicAliasAnalysis.cpp:333-350 | For nested sign extensions of sums, the decomposition is right if and only if below each that is looked through the signed constants add up to something that fits what is extended. |
| SignedSums.RightIffFactorFits | lib/Analysis/BasicAliasAnalysis.cpp:279-350 | For the sign extension of a product, if and only if the constant's sign bit is not set, or the variable is a multiple of 2 to the number of bits added. |
| SignedSums.RightIffNotNegative | lib/Analysis/BasicAliasAnalysis.cpp:351-364 | Where a sign extension is taken for a zero extension that is decomposed right, it is right if and only if what is extended is not negative. |
| SignedSums.DistanceIff | lib/Analysis/BasicAliasAnalysis.cpp:1812-1838 | For two expressions with the same value, extended alike, the difference of the recorded offsets is that of the expressions if and only if it is that of the lines with the constants extended by themselves, be the single decompositions right or wrong and the true scales alike or not. |
| LinearExpr.PeelsIff | lib/Analysis/BasicAliasAnalysis.cpp:221-372 | The decomposition gets to the innermost value if and only if the expression is no more than six operations deep, ors are disjoint, below a zero extension nothing is shifted and no unsigned operation may wrap, and below a sign extension no signed one, or no unsigned one where it is taken for a zero extension. |
| LinearExpr.HighBitsLost | lib/Analysis/BasicAliasAnalysis.cpp:218-219 | An expression whose high bits the decomposition does lose. |
| LinearExpr.SignExtensionTakenForZeroExtension | lib/Analysis/BasicAliasAnalysis.cpp:333-364 | A sign and a zero extension of one sum with different values and the same decomposition. |
| PointerOffsets.GetIndexDifference | lib/Analysis/BasicAliasAnalysis.cpp:1760-1794 | For every valuation, the resulting list adds up to the difference of the two lists modulo 2^64; no scale becomes 0, no variable comes twice that did not before, and a list taken from itself leaves nothing. |
| PointerOffsets.SubtractIndex | lib/Analysis/BasicAliasAnalysis.cpp:1766-1793 | One entry taken off: from an entry for the same variable, or as a new one. |
| GepAlias.ScanIndices | lib/Analysis/BasicAliasAnalysis.cpp:1352-1385 | The bits of all scales gathered, with just the powers of two that divide every scale dividing them, and whether every term is certainly not negative. |
| GepAlias.PositiveTermIff | lib/Analysis/BasicAliasAnalysis.cpp:1361-1384 | A term is taken not to be negative if and only if it is not, for every number that extensions and known signs allow the variable to be. |
| GepAlias.ModuloSound | lib/Analysis/BasicAliasAnalysis.cpp:1387-1396 | When the remainder of the constant offset leaves room for both accesses, they share no byte modulo 2^64, for every valuation. |
| GepAlias.RoomIffDisjoint | lib/Analysis/BasicAliasAnalysis.cpp:1389-1396 | For accesses of at least a byte the remainder test is exact: it leaves room if and only if the accesses are disjoint whatever multiple of the modulus is added. |
| GepAlias.BestRoom | lib/Analysis/BasicAliasAnalysis.cpp:1353-1396 | The modulus the code picks answers yes exactly when any power of two that divides all scales would. |
| Bits.AndMask | lib/Analysis/BasicAliasAnalysis.cpp:1392 | Masking with a power of two less one is the remainder. |
| Bits.LowestBitDivides | lib/Analysis/BasicAliasAnalysis.cpp:1387 | What the exclusive-or expression leaves is the largest power of two that divides. |
| GepAlias.AliasConstant | lib/Analysis/BasicAliasAnalysis.cpp:1313-1349 | Accesses a constant apart: no-alias, must-alias and partial-alias are each right, must-alias exactly at distance 0, and may-alias only where a size that matters is unknown. |
| GepAlias.AliasVariable | lib/Analysis/BasicAliasAnalysis.cpp:1351-1412 | No-alias exactly when some modulus leaves room, or all terms are positive and the offset leaves room, or the constant-offset test says yes. A no by the first is right without further conditions, by the second where the access ends before the address space does, by the third where the least distance recorded is no more than the true one and nothing goes all the way round or the distance stays within half the address space. |
| GepAlias.PositiveIff | lib/Analysis/BasicAliasAnalysis.cpp:1398-1402 | Where the test on positive terms says yes: up to where the distance has gone round once, the accesses are disjoint if and only if the access ends before the address space does. |
| GepAlias.AliasGeps | lib/Analysis/BasicAliasAnalysis.cpp:1280-1412 | From two decomposed addresses off one object to an answer that is right about the accesses, under the conditions of the test that gave it; two identical addresses must alias. |
| GepAlias.HeuristicSound | lib/Analysis/BasicAliasAnalysis.cpp:1796-1848 | When the constant-offset test says yes, the accesses are disjoint for every value of the shared variable, with every mix of extensions and around the end of the address space, INT64_MIN as scale included, under the exact conditions of the rows on ExtendedWords. |
| GepAlias.HeuristicIff | lib/Analysis/BasicAliasAnalysis.cpp:1796-1848 | The test says yes if and only if there are two variables of the same decomposition but for the offset, extended alike, with opposite scales, the sizes are known, and each with the size of the constant offset is, in 64-bit arithmetic, at most scale times the least distance of two words that differ as the recorded offsets do. |
| GepAlias.HeuristicIffFits | lib/Analysis/BasicAliasAnalysis.cpp:1838-1847 | Where nothing overflows and the recorded distance is the true one: if and only if both accesses fit, with the constant offset, between any two words that differ as the variables do. |
| GepAlias.HeuristicSoundWithoutWrap | lib/Analysis/BasicAliasAnalysis.cpp:1796-1848 | It is also right, whatever the scale, while the distance stays within half the address space and the least distance recorded is no more than the true one (for INT64_MIN, in 64-bit arithmetic). |
| GepAlias.NoNearerByLines | lib/Analysis/BasicAliasAnalysis.cpp:1812-1838 | Whether the least distance recorded is no more than the true one can be told from scales and offsets with the constants extended by themselves. |
| ExtendedWords.RightIffScaleFits | lib/Analysis/BasicAliasAnalysis.cpp:1832-1847 | For every way to extend the variables, INT64_MIN included: going by the true distance the test is right for all words, lengths and offsets that do not overflow if and only if the scale is INT64_MIN, or scale times 2 to the width is at most 2^64 and, where variables are extended both ways, what scale times 2 to the wider width leaves modulo 2^64 is 0 or at least scale times 2 to the width. |
| ExtendedWords.RightIffNoNearer | lib/Analysis/BasicAliasAnalysis.cpp:1832-1847 | Under that condition, going by any recorded distance it is right for all words a given distance apart if and only if the least distance recorded, in bytes, is no more than the true one. |
| ExtendedWords.InReachIffNoNearer | lib/Analysis/BasicAliasAnalysis.cpp:1832-1847 | The same, whatever the scale, over accesses whose distance stays within half the address space. |
| Distance.GapSound | lib/Analysis/BasicAliasAnalysis.cpp:1832-1847 | Why: wrapped or not, the scaled difference stays that far from 0 and from 2^64. |
| ExtendedWords.RightIffLengthsFit | lib/Analysis/BasicAliasAnalysis.cpp:1846-1847 | Under that condition, for every offset, 0 and INT64_MIN included, and every scale but 0, the test is right for all accesses of up to a length if and only if that length plus the size of the offset is below 2^64. |
| GepAlias.SignExtendedSumsMislead | lib/Analysis/BasicAliasAnalysis.cpp:1812-1838 | Two variables that are zero extensions of sign-extended sums, 10 apart but decomposed to offsets 246 apart, and accesses of 100 bytes that are taken not to overlap. |
| GepAlias.MixedExtensionsMislead | lib/Analysis/BasicAliasAnalysis.cpp:1832-1838 | x + 1 and x, 8 bits wide, sign-extended by 54 bits and then zero-extended, with scale 2^54 + 1 and x = 127: scale times 2^8 fits, the test says yes to accesses of 2^54 + 1 bytes, and they share a byte around the end of the address space. |
| GepAlias.KeptWithoutSExt | lib/Analysis/BasicAliasAnalysis.cpp:317-367 | Recorded and true distance are the same where no variable contains a sign extension. |
| GepAlias.KeptWhereSumsFit | lib/Analysis/BasicAliasAnalysis.cpp:333-350 | So they are for sign extensions of sums that fit. |
| BranchProbability.ScaleIsExact | lib/Support/BranchProbability.cpp:67-108 | The two-digit long division is the exact quotient rounded down, or the largest number where the quotient does not fit. |
| BranchProbability.NumeratorAtMostOne | lib/Support/BranchProbability.cpp:39-49 | A fraction rounds to at most one; a whole rounds to one exactly. |
| BranchProbability.PartAtMost | include/llvm/Analysis/BlockFrequencyInfoImpl.h:122-125 | A mass times a probability is at most the mass; times one, it is the mass. |
| BranchProbability.PartIs | include/llvm/Analysis/BlockFrequencyInfoImpl.h:122-125 | It is the mass times the fraction of 2^31 nearest to weight by total, rounded down. |
| BranchProbability.PartIsShare | include/llvm/Analysis/BlockFrequencyInfoImpl.h:122-125 | So it is off the exact share by less than one and a part in 2^32 of the mass. |
| Distributions.Distribution.Add | lib/Analysis/BlockFrequencyInfoImpl.cpp:123-138 | A weight is added; the total is the 64-bit sum, and a single overflow is noted. |
| Distributions.CompactSorted | lib/Analysis/BlockFrequencyInfoImpl.cpp:162-174 | The in-place compaction of a sorted list leaves one weight for every target, with its kind and the saturated sum of its weights. |
| Distributions.CombineWeightsBySorting | lib/Analysis/BlockFrequencyInfoImpl.cpp:156-175 | The same for a list in any order, with any sort. |
| Distributions.CombineWeightsByHashing | lib/Analysis/BlockFrequencyInfoImpl.cpp:177-194 | The same by hashing, with any table order and the early exit when nothing was combined. |
| Distributions.CombineWeights | lib/Analysis/BlockFrequencyInfoImpl.cpp:196-204 | The same whichever way is chosen. |
| Distributions.CombinedAgree | lib/Analysis/BlockFrequencyInfoImpl.cpp:156-204 | Two results for the same weights in any order hold the same entries, so sorting and hashing agree. |
| Distributions.Distribution.Normalize | lib/Analysis/BlockFrequencyInfoImpl.cpp:214-268 | One weight for each target, of its kind: 1 for a lone target; otherwise the saturated sum of its weights divided by 2^k to the nearest, and never 0. k is 0 where the sum of all fits into 32 bits, 33 where it does not fit into 64, and otherwise such that the sum takes up 31 bits. Every weight fits into 32 bits, the total is their sum, and it fits as well within the exact bound on sum and number of targets. |
| Distributions.ScaledFits | lib/Analysis/BlockFrequencyInfoImpl.cpp:230-267 | The shift leaves a total that fits into 32 bits for up to 2^31 targets: always without overflow, and with overflow when the sum plus 2^33 for each target but one is below 2^65 plus the number of targets less 2. |
| WeightRange.EveryListFitsIff | lib/Analysis/BlockFrequencyInfoImpl.cpp:230-267 | With overflow, for every sum and every number of targets from 2 to 2^31: the total of every list with that sum and so many targets fits if and only if they are within that bound. |
| WeightRange.CallerBound | lib/Analysis/BlockFrequencyInfoImpl.cpp:214-268 | A caller that knows the sum of its weights and how many there are may rely on the bound. |
| WeightRange.TwoLargestDoNotFit | lib/Analysis/BlockFrequencyInfoImpl.cpp:234-267 | Two weights of the largest size are outside it, and they round to a total of 2^32, which the assertion refuses. |
| MassDistribution.PortionsAreAll | lib/Analysis/BlockFrequencyInfoImpl.cpp:112-121 | The portions taken one after the other for all weights come to the mass exactly. |
| MassDistribution.DitheringDistributer.constructor | lib/Analysis/BlockFrequencyInfoImpl.cpp:105-110 | Starts with the normalized weights' total and the whole mass. |
| MassDistribution.DitheringDistributer.TakeMass | lib/Analysis/BlockFrequencyInfoImpl.cpp:112-121 | Takes the weight's share of what is left, exactly as rounded, never more than that; off by no more than a unit and a part in 2^32. |
| MassDistribution.PortionsAreShares | lib/Analysis/BlockFrequencyInfoImpl.cpp:112-121 | Dithering does not drift: every portion is its weight's share of the whole mass, off by no more than a unit and a part in 2^32 of the mass for it and for each one taken before. |
| MassDistribution.BlockFrequencyInfo.DistributeMass | lib/Analysis/BlockFrequencyInfoImpl.cpp:424-457 | The whole state afterwards, whenever the assertion on the normalized total holds: every portion, near its weight's share of the mass, is added to the block or header its weight leads to, up to full, all others are unchanged, and the exits are listed with theirs. |
| MassDistribution.CreditsAdd | lib/Analysis/BlockFrequencyInfoImpl.cpp:433-456 | Booking adds at most the portions, and exactly the portions if and only if no mass gets full. |
| MassDistribution.NoMassIsLost | lib/Analysis/BlockFrequencyInfoImpl.cpp:424-457 | Blocks, headers and exits together gain exactly the source's mass, if and only if none gets full. |
| MassDistribution.NoMassIsLostEach | lib/Analysis/BlockFrequencyInfoImpl.cpp:424-457 | For normalized weights, if and only if the mass every target had before has room for its portion. |
| LoopUnwrap.BlockFrequencies.UnwrapLoops | lib/Analysis/BlockFrequencyInfoImpl.cpp:520-527 | The single pass gives every block its mass, as (mass + 1) / 2^64, times scale and mass of every loop around it, for any nesting; and every loop the product of scales and masses of itself and the loops around it. |
| LoopUnwrap.BlockFrequencies.UnwrapLoop | lib/Analysis/BlockFrequencyInfoImpl.cpp:498-518 | One loop: every block and inner loop of it is multiplied once, nothing else. |
| LoopUnwrap.BlockFrequencies.VisitMember | lib/Analysis/BlockFrequencyInfoImpl.cpp:509-517 | A member stands for a block or for the outermost loop still packaged around it, and just that is multiplied. |
| LoopUnwrap.BlockFrequencies.GetPackagedLoop | include/llvm/Analysis/BlockFrequencyInfoImpl.h:314-321 | Climbing packaged parents ends at the loop just inside the one being unwrapped. |
| LoopUnwrap.FactorIs | lib/Analysis/BlockFrequencyInfoImpl.cpp:502 | That product is the parent's, or 1 without a parent, times the loop's scale, times (its mass + 1) / 2^64. |
| IrreducibleHeaders.FindIrreducibleHeaders | lib/Analysis/BlockFrequencyInfoImpl.cpp:676-741 | Splits the part into headers and others, sorted: the headers are the entries and the targets of backward edges from nodes that are not entries. |
| IrreducibleHeaders.OthersGoForward | lib/Analysis/BlockFrequencyInfoImpl.cpp:709-738 | Every edge between two others goes strictly forward. |
| IrreducibleHeaders.CyclesMeetHeaders | lib/Analysis/BlockFrequencyInfoImpl.cpp:676-741 | Every cycle in the part goes through a header. |
| PostDominance.BranchProbabilityInfo.UpdatePostDominatedByUnreachable | lib/Analysis/BranchProbabilityInfo.cpp:134-161 | A block is marked exactly when it ends in unreachable code or all its normal successors are marked. |
| PostDominance.BranchProbabilityInfo.UpdatePostDominatedByColdCall | lib/Analysis/BranchProbabilityInfo.cpp:165-195 | A block with successors is marked exactly when it calls a cold function or all its normal successors are marked. |
| PostDominance.BranchProbabilityInfo.Walk | lib/Analysis/BranchProbabilityInfo.cpp:846-868 | After the walk, in any order, every mark is justified by marks set before it. |
| PostDominance.MarkedEndsUnreachable | lib/Analysis/BranchProbabilityInfo.cpp:134-161 | From a block marked unreachable every normal path is short, never cycles, and goes on until it ends in unreachable code. |
| PostDominance.MarkedComesToCold | lib/Analysis/BranchProbabilityInfo.cpp:165-195 | From a block marked cold every normal path without a cold call is short, never cycles, and goes on. |
| PostDominance.MarkedIffEndsUnreachable | lib/Analysis/BranchProbabilityInfo.cpp:134-161 | In any order and for any function, cycles included: a block is marked if and only if every normal path from it goes from block to block visited before, and goes on until it ends in unreachable code. |
| PostDominance.MarkedIffComesToCold | lib/Analysis/BranchProbabilityInfo.cpp:165-195 | Likewise, if and only if no normal path from it avoids cold calls up to the function's end or up to a block not visited before. |
| PostDominance.MarkedIffAllEndUnreachable | lib/Analysis/BranchProbabilityInfo.cpp:134-161 | Where no normal edge goes to a later block, that is: every normal path that goes no further ends in unreachable code. |
| EdgeWeights.CalcMetadataWeights | lib/Analysis/BranchProbabilityInfo.cpp:265-339 | The probability of every edge, exactly: the weight used by the sum of all, to the nearest; edges to unreachable code are held down to one unit where others exist, and what they had beyond is shared out evenly, as much for each as it is enough for; the sum never grows, and unless it was above one it shrinks by no more than a unit for each reachable edge. |
| EdgeWeights.ProbabilitiesExact | lib/Analysis/BranchProbabilityInfo.cpp:289-313 | Before that, where the given weights fit into 32 bits together, each probability is the given weight by the sum of all, to the nearest. |
| EdgeWeights.ProbabilitiesNear | lib/Analysis/BranchProbabilityInfo.cpp:289-313 | Where they do not, and n is the number of edges, it is off by no more than half a unit and 2n / (2^32 - 1 - n). |
| EdgeWeights.ScaleWeights | lib/Analysis/BranchProbabilityInfo.cpp:289-308 | The two loops give the weights used, as below, and their sum, which is not 0 and fits into 32 bits. |
| EdgeWeights.FinalWeightsAre | lib/Analysis/BranchProbabilityInfo.cpp:289-308 | They are the given ones divided by d if some reachable block exists and some quotient is not 0, and all 1 otherwise; d is 1 where the sum fits into 32 bits, and otherwise the least for which the sum is below d times 2^32 - 1. |
| EdgeWeights.FinalWeightsFit | lib/Analysis/BranchProbabilityInfo.cpp:301-308 | They fit into 32 bits together, as the assertion demands, and are not all 0. |
| EdgeWeights.ProbabilitiesComeToOne | lib/Analysis/BranchProbabilityInfo.cpp:310-313 | The probabilities come to one, give or take half a unit for each edge. |
| Barrier.WaitForThreads.Block | examples/ParallelJIT/ParallelJIT.cpp:166-191 | What a blocking thread does under the lock: count itself, and wake everyone if it is the last. |
| Barrier.WaitForThreads.ReleaseThreads | examples/ParallelJIT/ParallelJIT.cpp:196-214 | Wake everyone if enough have come, or leave the number to wait for. |
| Barrier.NoneLeavesEarly | examples/ParallelJIT/ParallelJIT.cpp:166-233 | In every run of any number of threads, no thread is let go before all blocking threads and the releaser have arrived. |
| Barrier.AssertionHolds | examples/ParallelJIT/ParallelJIT.cpp:174 | The assertion on the count holds every time a thread gets to it. |
| Barrier.NoneStuck | examples/ParallelJIT/ParallelJIT.cpp:166-233 | A run that cannot go on has let every thread through: no waiter is left. |
| Barrier.RunsEnd | examples/ParallelJIT/ParallelJIT.cpp:166-233 | No run takes more than five steps for each thread. |
| Barrier.LockExclusive | examples/ParallelJIT/ParallelJIT.cpp:166-216 | At most one thread is under the lock. |
| ItaniumNames.ParserInvertsPrinter | utils/extract_symbols.py:280-318 | A printed nested name, which may end in an operator, followed by anything gives back its names, whether each has template arguments, and what follows. |
| ItaniumNames.NestedFails | utils/extract_symbols.py:280-318 | After any printed names: template arguments that are given up on make the name too complex, and arguments that are cut off make it fail. |
| ItaniumNames.IdentifierCutOff | utils/extract_symbols.py:280-318 | So does an identifier that is cut off. |
| ItaniumNames.SkipsArguments | utils/extract_symbols.py:246-276 | Printed template arguments of any nesting are skipped exactly. |
| ItaniumNames.GivesUp | utils/extract_symbols.py:268-269 | Whatever was printed before, a literal or an expression is given up on. |
| ItaniumNames.ArgumentsCutOff | utils/extract_symbols.py:246-276 | Where the text ends before the arguments do, nothing is left. |
| ItaniumNames.ParseItaniumNestedName | utils/extract_symbols.py:280-318 | Terminates on every string; its loop, returns and error cases are those of the recursive description. |
| ItaniumNames.SkipItaniumTemplate | utils/extract_symbols.py:246-276 | The same for the loop over template arguments. |
| ItaniumNames.NamePrinted | utils/extract_symbols.py:224-242 | A printed name followed by anything but nothing, an operator by an E, is taken off exactly. |
| ItaniumNames.ParseNameTakes | utils/extract_symbols.py:224-242 | On any string: a number and so many characters, or all there are; else two for a constructor or destructor; else what comes before the next E, or all but the last character. Name and rest make up the string, and it fails only where there is no such name. |
| ItaniumNames.SubstitutionIff | utils/extract_symbols.py:257-260 | A substitution is taken off exactly where one was printed and something follows. |
| ItaniumNames.ParseName | utils/extract_symbols.py:224-242 | Fails or leaves a strict suffix, which is why the mutual recursion of the parsers ends. |

## Left out

- Backends, passes, printers, the C API and the rest of LLVM: thin or I/O.
- BrainF: addresses are whole numbers and the tape is one allocation at address 0; the comparison with the ends of the tape is on offsets, so a head that wraps around the address space is not modelled. Run lengths and head offsets do not overflow. Parsing command-line flags and the driver are left out. `getchar`, `putchar` and `puts` are events of a trace.
- Alias sets: `deleteValue`, `copyValue`, `clear`, unknown instructions, access kinds, volatile flags and growing access sizes. Each pointer keeps one access size, which is folded into the alias oracle; the oracle is symmetric, and pointers that must alias relate alike to every third one. Lists are sequences, so splicing is concatenation. Counters are unbounded.
- CFG: dominators and loops are parameters that answer truly. That the entry block has no predecessors, as LLVM demands of every function, is a precondition of the query between instructions alone. `isCriticalEdge` and `GetSuccessorNumber` are left out.
- BasicAA: `DecomposeGEPExpression`, `aliasPHI`, `aliasSelect`, `EltsDontOverlap`, capture tracking. `MaskedValueIsZero`, known signs and equality of values in cycles are oracles that answer truly. Pointers are 64 bits wide.
- GepAlias.NoNearerByLines: where a negative number is under a sign extension that is taken for a zero extension, the lines do not tell the true distance; the condition on it in `GepAlias.HeuristicSound` is then one on the values of the variables.
- ExactLinear.ReadsRightIff: where a negative number is under a sign extension that is taken for a zero extension, and operations follow, no closed form is given; `SignedSums.RightIffNotNegative` is about that extension itself.
- WeightRange.EveryListFitsIff: more than 2^31 targets are left out.
- Block frequencies: `Scaled64` is exact reals; `computeLoopScale`, `adjustLoopHeaderMass`, `addToDist`, `packageLoop` and conversion to integers are left out, as is the choice between a package's mass and its parent's in `getMass`.
- MassDistribution.BlockFrequencyInfo.DistributeMass: the mass of a package is one entry of the working masses, whichever object holds it.
- LoopUnwrap.BlockFrequencies.UnwrapLoops: that outer loops come first, and that the members listed for a loop are its blocks and the loops just inside it, each once, is a precondition.
- PostDominance.BranchProbabilityInfo.Walk: the order is a parameter, and a block comes once in it.
- EdgeWeights.CalcMetadataWeights: reading the metadata, and giving up when it does not match the successors, are left out; so are the other heuristics.
- Barrier: spurious wakeups, errors of pthread calls, output, and reuse of the object while it is being left.
- ItaniumNames.ParserInvertsPrinter: an operator comes last in a printed name and has no template arguments, as what follows one up to the next E is taken for a part of it; `ItaniumNames.ParseNameTakes` says what is taken of any string. Digits are the ten ASCII ones and names hold no line ends.
- Nested names: `should_keep_itanium_symbol`, `should_keep_microsoft_symbol` and the symbol extraction around them.
