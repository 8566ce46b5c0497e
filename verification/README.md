# Verified models of the P4 compiler's core algorithms

This project models seven parts of the P4 reference compiler (p4c) and proves what they are for. It
stands beside the C++ code: every module says which part it models, and the table below gives the
lines. To check it, run `dafny verify dfyconfig.toml` with Dafny 4.11.

Code that changes things step by step is modelled by classes and methods that do the same; each such
method is proved equal to a function, and the theorems are about these functions. Hash maps are
`map`, vectors `seq` or `array`, `big_int` is `int`, machine words are numbers below 2^64 or 2^32
with the wrap-around written out. A `BUG_CHECK` or a crash of the source becomes a precondition or
a result of `false`; an error report becomes an entry in a list of errors.

## What is modelled

* **Splitting statements** (`Splitter*.dfy`). A loop-free statement is cut into `before` and `after` at
  the first matches of a predicate. `Exec` gives statements a meaning (a trace of leaf statements and a
  store); `Cut` says, without splitting, where a run of the original stops. The two halves run what the
  original runs, also when code is put between them. The header of the source promises two things that
  do not hold in general: that on every path everything up to the first match is in `before`, and that
  every declaration `after` would miss is hoisted. The first is measured against `Until`, which runs a
  statement up to its first match and knows nothing of splitting. For both, a lemma gives a concrete
  statement and another a condition that holds exactly when the promise is kept. The condition for the
  first looks at the statement and at the values that the types of its conditions and selectors have: a
  switch with a `default` case, for one, always chooses a case. The second is said in terms of places
  in the statement.
* **Memoised traversal** (`Dag.dfy`, `Memo.dfy`, `Forwarding.dfy`, `Rewriting.dfy`, `Transform.dfy`,
  `Inspector.dfy`). IR is a heap of nodes whose children come earlier, so sharing is modelled and
  cycles are not. Hooks may inspect the whole tree below their argument; a preorder hook may edit its
  argument in place or put a fresh node over its children, a postorder hook may put any fresh tree over
  them. `Transform` is proved to do what a memoised traversal on trees does, and to return the same
  root if nothing changes. That is plain bottom-up rewriting if finished children are not forwarded
  before the preorder hook runs. By default they are; then everything visited is rewritten plainly if
  and only if, at each node visited, it makes no difference to the outcome that the preorder hook is
  shown the children rewritten so far. For hooks that leave some kind of node alone there is a
  condition on the hooks by themselves: every traversal, started with nothing visited, is plain
  rewriting if and only if showing a preorder hook rewritten children never makes a difference
  (`Forwarding.dfy`). A lemma gives hooks for which it does. What rewriting makes of each node, for
  hooks that go by tags, is said without recursion (`Rewriting.dfy`). `Inspector` is proved to visit
  each reachable node once, children first, and in depth-first order.
* **Loops in flow analysis** (`LoopFlow.dfy`, `LoopSound.dfy`, `LoopLeast.dfy`). The `for` driver with
  its break and continue accumulators, over any join of finite height. It covers every run of any
  machine the analysis is sound for, it terminates, it leaves the accumulators of an outer loop alone,
  and for a monotone analysis it ends with the least solution of the flow inequalities. As in the
  passes of the source (midend/def_use.cpp:59-63), merging joins the facts and takes the "and" of the
  unreachable flags.
* **The pass manager** (`PassManager.dfy`, `PassRuns.dfy`). Passes are arbitrary functions of the
  history, so every sequence of triggers and restarts is covered. The backup stack of the source may
  hold several entries for a pass that was gone back to; this is shown to be harmless.
* **The symbol table** (`Suffixes.dfy`, `SuffixSet.dfy`, `SymbolIds.dfy`, `SymbolIdProofs.dfy`,
  `SymbolIdChoice.dfy`, `SymbolTable.dfy`). The heap-allocated tree of name suffixes, aliases, and ids
  that are hashed, probed for and fixed by annotations. The hash is an arbitrary function.
* **Table entries** (`BigInt.dfy`, `Bytestrings.dfy`, `Entries.dfy`, `EntriesConverter.dfy`,
  `FieldIds.dfy`, `EntriesErrors.dfy`, `EntriesLookup.dfy`). The translation of entries to P4Runtime.
  What matches is defined twice, once for P4 keysets (section 14.2.1.4 of the P4_16 Language
  Specification) and once for P4Runtime match fields (section 9.1.1 of the P4Runtime Specification),
  and the translation is shown to preserve which entry wins in every table that is translated without
  an error; which these are is said of the entries alone. The converter does not count keys whose match
  type it does not support, and does not look at `@id` annotations, whereas the ids of the table's
  match fields do both; a condition on the kinds and annotations of the keys says exactly when the ids
  agree. Without annotations it is that unsupported keys come last. The test for masks of
  longest-prefix keys lets some masks beyond the width through; what is emitted for a mask means what
  the source means exactly if the mask is in width.
* **Containers** (`Vectors.dfy`, `IndexedVector.dfy`, `Bits.dfy`, `Words.dfy`, `BitVec.dfy`,
  `HexText.dfy`, `BitRuns.dfy`, `Rotation.dfy`, `BitSets.dfy`, `Ranges.dfy`). Splicing vectors while
  they are visited; the name index of an indexed vector; bit vectors in 64-bit words, refined to
  numbers; runs of bits; hexadecimal text; division that rounds down and ranges of bits and bytes. An
  indexed vector is marked invalid also by visitors whose final names are distinct, if names clash on
  the way; a lemma says exactly when it is.

## Main results

Split statements:
`SplitterPreserves.SplitPreservesMeaning` and `AfterResumesAtCut` (meaning is preserved),
`SplitterPaths.EveryPathCutAtFirstMatch` and `SplitterUses.HoistingMissesExactly` (exactly when the
header's promises are kept), `SplitterStructure.SplitConservesDeclarations`.
Traversal:
`Transformer.Transform.Apply`, `Memo.PlainExactlyIfSteady`, `Forwarding.ForwardingIsPlainIffSteady`,
`Rewriting.VisitAt`, `Inspection.Inspector.Apply`.
Flow analysis:
`LoopSound.VisitSound`, `LoopLeast.VisitIsLeast` with `LoopLeast.VisitSolves`, and
`LoopSound.RoundsBoundedByHeight`.
Passes:
`PassManagement.PassManager.ApplyVisitor` with `PassRuns.EveryRunConsistent`, `PassRuns.RunsEnd` and
`PassRuns.NormalReturnIsComposition`.
Symbols:
`SymbolIdProofs.OrderIsIrrelevant`, `SymbolIdProofs.CreatedRunsOutIfTooMany`,
`SymbolIdChoice.AskedIdIsKept`, `SymbolIdChoice.HashedIdIsNearest`,
`Suffixes.AliasesClashExactly`, `SuffixTree.SymbolSuffixSet.ShortestUniqueSuffix`.
Entries:
`EntriesLookup.LookupIsPreserved`, `EntriesLookup.GivenPriorityDecides`,
`EntriesErrors.ConvertIsClean`, `EntriesLookup.LpmExactlyIfInWidth`, `FieldIds.IdsAgreeExactly`.
Containers:
`Vectors.Vector.VisitChildren`, `IndexedVectors.IndexedVector.VisitChildren`,
`BitVecs.PrintAndParse`, `BitRuns.RunsPartition`, `Rotation.RotationIsBijection`,
`Ranges.FastFormsAgree`.

## Model

| member | source | states |
|---|---|---|
| Splitter.StatementSplitter.Visit | ir/splitter.cpp:37-159 | visiting a statement with the mutable `result`, needed names and name generator computes the specification `Split` |
| Splitter.StatementSplitter.VisitBlock | ir/splitter.cpp:46-71 | the block loop stops at the first component that splits and cuts there |
| Splitter.StatementSplitter.VisitIf | ir/splitter.cpp:73-108 | the condition is saved once and both halves rebuilt around it |
| Splitter.StatementSplitter.VisitSwitch | ir/splitter.cpp:110-159 | the same for a selector, with empty blocks where a branch is missing |
| Splitter.StatementSplitter.VisitBranches | ir/splitter.cpp:197-220 | the loop over branches collects halves and hoisted declarations in order |
| Splitter.StatementSplitter.HandleStmt | ir/splitter.cpp:170-180 | a match becomes `after`; that nothing was found before is its precondition, so the check "more than one leaf" never fires |
| Splitter.StatementSplitter.Apply | ir/splitter.cpp:161-165 | a statement without a match, or one that itself matches, is its own `before` |
| SplitterPreserves.SplitPreservesMeaning | ir/splitter.h:42-55 | `before` then `after` has the trace of the original if and only if the root does not match or does nothing, and ends in the same program variables; older fresh names are untouched |
| SplitterPreserves.AfterResumesAtCut | ir/splitter.h:42-55 | whatever inserted code does to program variables, `after` runs what remained of the original at the cut |
| SplitterPreserves.SplitCorrect | ir/splitter.cpp:46-159 | for any store at either time, `before` runs to the cut, saving each condition, and `after` runs the rest |
| SplitterPreserves.CutThenRest | ir/splitter.h:42-45 | the reference semantics of cutting: stopping at the cut and running the rest is running the statement |
| SplitterMeaning.SplitFindsMatch | ir/splitter.cpp:170-180 | there is an `after` exactly if something matches |
| SplitterMeaning.FilterKeepsMeaning | ir/splitter.cpp:240-261 | taking declarations out does not change what runs |
| SplitterStructure.SplitConservesDeclarations | ir/splitter.cpp:46-159 | every declaration ends up in exactly one of `before`, `after` and the hoisted list, with one fresh variable for each saved condition |
| SplitterStructure.BeforeHasNoMatchingLeaf | ir/splitter.h:42-45 | no leaf satisfying the predicate is in the `before` of a split |
| SplitterStructure.SwitchKeepsFallthrough | ir/splitter.cpp:137-144 | both halves of a switch keep labels and fall through exactly where the original did |
| SplitterPaths.EveryPathCutAtFirstMatch | ir/splitter.h:42-45 | whatever values of their types conditions and selectors take, from every store, `before` runs exactly what the original runs up to its first match, if and only if no block can go on, with something that runs before a match, after a component that has missed its match |
| SplitterPaths.DefaultKeepsPromise | test/gtest/ir-splitter.cpp:255-309 | a switch that matches in each of its cases, `default` among them, keeps the promise whatever comes behind it; without the default, exactly if the selector has no other value |
| SplitterPaths.PathCutEarly | ir/splitter.h:42-45 | a statement for which the promise fails |
| SplitterPaths.CutThenUntil | ir/splitter.h:42-45 | running to the cut and on to the first match of what remains is running to the first match |
| SplitterPaths.ReturnedBeforeHasNoMatchingLeaf | ir/splitter.cpp:161-165 | no leaf satisfying the predicate is in the `before` that is returned, unless the root itself matches: then `before` is the root |
| SplitterUses.HoistingMissesExactly | ir/splitter.h:49-52 | a declaration is left at some place in `before` although some place in `after` has a use of its name if and only if the original has a use at or behind a match, and a declaration before the cut that stays; both are said of the original alone |
| SplitterUses.BlockMissesExactly | ir/splitter.cpp:55-67 | for a block: a declaration is not at or behind any match, the use is behind the first component with a match, and that component collects no such name |
| SplitterHoisting.SplitCollects | ir/splitter.cpp:222-238 | splitting adds to the needed names exactly those that a function of the statement alone says |
| SplitterHoisting.AfterUses | ir/splitter.cpp:61-66 | the names used in `after` are those the original uses at or behind a match |
| SplitterHoisting.BeforeDecls | ir/splitter.cpp:240-261 | the declarations in `before` are those in front of the cut that no enclosing cut filters out |
| SplitterUses.HoistingMissesTail | ir/splitter.cpp:61-64 | a flat block for which hoisting misses a declaration |
| SplitterPlaces.NeededExactly | ir/splitter.cpp:222-235 | what is collected from a statement are the names with a resolved use at some place in it, be it a leaf, a condition or a selector |
| SplitterPlaces.RunsParts | ir/splitter.cpp:222-235 | these places are all there are: whatever a run does is done by a leaf or an expression at one of them |
| SplitterUses.CollectedExactly | ir/splitter.cpp:55-67 | a split collects a name exactly if some use of it is inside a match, or in a component of a block that has a match, or in a later one |
| SplitterUses.UsedAfterExactly | ir/splitter.cpp:61-66 | the recursive account of uses in `after` says that a use is at or behind a match, whatever the nesting |
| SplitterUses.InBeforeExactly | ir/splitter.cpp:55-60 | that of declarations in `before` says that one is not at or behind any match |
| SplitterStructure.SavesInOrder | ir/splitter.cpp:191-219 | the variables for saved conditions and selectors are hoisted in the order of their names, those of inner statements first |
| Transformer.FinishSettles | ir/visitor.cpp:112-136 | finishing gives a result with the content of the final node that is itself finished and maps to itself |
| Transformer.Transform.ForwardChildren | ir/visitor.cpp:461-471 | each finished child whose result is not null is replaced by it, the others stay |
| Transformer.Transform.VisitReplaced | ir/visitor.cpp:562-580 | the path on which the preorder hook replaces the node by a fresh one does what the traversal on trees does |
| Transformer.Transform.VisitEdited | ir/visitor.cpp:559-593 | so does the path on which it changes the node's tag and its choice of children in place |
| Transformer.Transform.PostOrder | ir/visitor.cpp:582-589 | for each answer of the postorder hook, which node is the final one and what is in the heap: none, a child, an edited or a fresh node over nodes just made, or the node as it was |
| Transformer.Transform.ApplyVisitor | ir/visitor.cpp:538-604 | a node is finished afterwards with the result returned; the finished originals and their trees are those of the traversal on trees; entries of others stay; the Busy branch is not reached |
| Transformer.Transform.Apply | ir/visitor.cpp:538-604 | the result unfolds to what the memoised traversal makes of the root; everything visited is rewritten plainly if and only if no preorder hook is misled by forwarded children; an untouched root is returned itself; preorder runs once on exactly the originals visited, which are the reachable ones if no preorder hook drops or replaces a node |
| Transformer.ConcludeIsSound | ir/visitor.cpp:588-593 | finishing the node on top of the context keeps the table right and the context equal to the busy nodes |
| Dag.MakePlants | ir/visitor.cpp:582-585 | nodes made in the heap by a hook unfold to the tree it describes over what the children unfold to |
| Rewriting.VisitAt | ir/visitor.cpp:538-604 | for hooks that go by tags, to drop, rename and choose children before and after: the result has a node at a place exactly if the rules lead there from a node of the original with nothing dropped on the way, and its tag is as they say; shared or not, forwarded or not |
| Rewriting.DeletesExactly | ir/visitor.cpp:582-591 | if postorder returns null for some tags, what is left are exactly the nodes without such a tag that are below none that has one, each where it was |
| Rewriting.UnwrapsExactly | ir/visitor.cpp:582-591 | if postorder returns the child of wrapper nodes, these are lost and nothing else, and the order of the others is kept |
| Rewriting.PlantedAt | ir/visitor.cpp:582-585 | a fresh tree has its nodes where the hook put them, and the children below |
| Memo.VisitIsPlain | ir/visitor.cpp:538-604 | visiting any node, after any that were rewritten plainly, is plain bottom-up rewriting, without condition if children are not forwarded |
| Memo.PlainExactlyIfSteady | ir/visitor.cpp:555-558 | a visit rewrites everything it visits plainly if and only if, at each node, the preorder hook's answer to the children it is shown leads to the same as its answer to the original ones |
| Forwarding.ForwardingIsPlainIffSteady | ir/visitor.cpp:555-558 | for hooks that leave some kind of node alone, every forwarding traversal that starts with nothing visited is plain rewriting if and only if showing a preorder hook rewritten children never changes the outcome |
| Memo.ForwardingDiffers | ir/visitor.cpp:555-558 | hooks and a shared node for which the forwarding traversal and plain rewriting differ |
| Memo.VisitKeeps | ir/visitor.cpp:538-604 | a tree that the hooks leave alone becomes itself, with or without forwarding |
| Memo.VisitReaches | ir/visitor.cpp:538-604 | if no preorder hook drops or replaces its argument, exactly the reachable originals are visited |
| Inspection.Inspector.ApplyVisitor | ir/visitor.cpp:510-536 | after a visit the reachable nodes are finished and nothing else changed |
| Inspection.Inspector.Apply | ir/visitor.cpp:510-536 | preorder on exactly the reachable nodes, once each; every node finished after its children; both in depth-first order with children in order, a shared node where it is met first; postorder where preorder said so |
| Inspection.ReachedExactly | ir/visitor.cpp:510-536 | reachable is what there is a walk to, down from nodes whose preorder hook returned true |
| Inspection.FinishIsSound | ir/visitor.cpp:283-288 | closing a node keeps the finished set closed under children and the context equal to the unfinished nodes |
| LoopFlow.ControlFlowVisitor.DoFor | ir/loop-visitor.cpp:20-51 | the `while (true)` loop with clones and shared accumulators computes `VisitRounds`, with the accumulators saved and put back |
| LoopFlow.ControlFlowVisitor.DoVisit | ir/loop-visitor.cpp:79-94 | break and continue merge into their accumulator and make the state unreachable |
| LoopFlow.MergeRises | ir/loop-visitor.cpp:34-36 | a loop head that changes comes strictly closer to the top |
| LoopSound.VisitSound | ir/loop-visitor.cpp:20-94 | every run of any nest of loops, branches and jumps, however many rounds, ends in a state the visitor covers |
| LoopLeast.VisitIsLeast | ir/loop-visitor.cpp:20-94 | for a monotone analysis, any facts at loop heads, body ends, breaks, continues and exits that satisfy the flow inequalities are above what the visitor ends with, unreachable flag and accumulators included |
| LoopLeast.VisitSolves | ir/loop-visitor.cpp:20-94 | what it ends with satisfies them, so it is the least solution |
| LoopSound.RoundsSound | ir/loop-visitor.cpp:26-38 | the exits of a loop, by condition or by break, are covered from any head |
| LoopSound.FixpointSound | ir/loop-visitor.cpp:34-38 | a head that no longer changes covers every state reached at the loop head |
| LoopSound.LoopKeepsOuterGlobals | ir/visitor.h:593-609 | a loop leaves the accumulators of the loop around it exactly as they were |
| LoopSound.RoundsBoundedByHeight | ir/loop-visitor.cpp:26-37 | each round but the last strictly raises the head, so the height bounds their number |
| PassManagement.PassManager.Unwind | ir/pass_manager.cpp:96-113 | popping the stack offers the trigger to the passes the reference search names, and restores the input the accepting pass had |
| PassManagement.PassManager.Turn | ir/pass_manager.cpp:74-119 | one turn of the loop, exceptions included, is one reference step |
| PassManagement.PassManager.ApplyVisitor | ir/pass_manager.cpp:62-122 | any number of turns is as many reference steps |
| PassManagement.EntriesHoldLineage | ir/pass_manager.cpp:76-80 | every backup entry holds the current lineage's input to its pass |
| PassRuns.EveryRunConsistent | ir/pass_manager.cpp:62-122 | in every run, whatever the passes do, the program is the composition of the latest invocations, and each event follows from the one before and is what the pass answers |
| PassRuns.OffersGoDown | ir/pass_manager.cpp:96-108 | a trigger is offered to strictly lower passes, each at most once |
| PassRuns.RunsEnd | ir/pass_manager.cpp:74-119 | a run in which at most m triggers are accepted is over after count * (m + 1) + 1 turns |
| PassRuns.AllReturnFinishes | ir/pass_manager.cpp:74-122 | if all passes return, the run is over after one turn for each and one more, with what they make of the original in their order |
| PassRuns.NormalReturnIsComposition | ir/pass_manager.cpp:62-122 | a normal return yields the straight-line composition from the original program |
| SuffixTree.SymbolSuffixSet.AddSymbol | control-plane/p4RuntimeSymbolTable.cpp:338-376 | adding keeps each node's count equal to the number of symbols with its suffix, with nodes for exactly the suffixes of symbols |
| SuffixTree.SymbolSuffixSet.ShortestUniqueSuffix | control-plane/p4RuntimeSymbolTable.cpp:297-336 | reading the tree gives the alias as defined from the set of symbols alone |
| SuffixTree.CountedNext | control-plane/p4RuntimeSymbolTable.cpp:370-375 | one step of the insertion counts one more component |
| SuffixTree.IsTreeGrows | control-plane/p4RuntimeSymbolTable.cpp:370-373 | hanging on a node keeps the nodes a tree |
| Suffixes.AliasIsUnique | control-plane/p4RuntimeSymbolTable.cpp:301-323 | an alias shorter than the name ends in a suffix no other symbol has |
| Suffixes.AliasIsShortest | control-plane/p4RuntimeSymbolTable.cpp:301-323 | every shorter suffix is shared |
| Suffixes.AliasesDiffer | control-plane/p4RuntimeSymbolTable.h:55-60 | distinct symbols without empty components get distinct aliases |
| Suffixes.AliasesClashExactly | control-plane/p4RuntimeSymbolTable.cpp:297-336 | two symbols get the same alias if and only if one ends in all of the other behind empty components, and these make up all of it or are shared by no other symbol |
| Suffixes.EmptyComponentsClash | control-plane/p4RuntimeSymbolTable.cpp:327-333 | with an empty component two symbols may get the same alias |
| Suffixes.JoinRoundTrip | control-plane/p4RuntimeSymbolTable.cpp:325-335 | joining loses nothing if and only if the first component is not empty, or the only one |
| SymbolIds.ExternalId | control-plane/p4RuntimeSymbolTable.cpp:39-81 | an annotation is accepted if and only if it fits in 32 bits and its upper 8 are 0 or the type's prefix, otherwise the error says which; the id has the prefix and the annotation's lower 24 bits, so that one with the right prefix is unchanged |
| SymbolIdChoice.AskedIdIsKept | control-plane/p4RuntimeSymbolTable.cpp:221-236 | a symbol first declared with an acceptable annotation ends with its lower 24 bits behind the type's prefix, if and only if no earlier symbol has asked for the same |
| SymbolIdChoice.HashedIdIsNearest | control-plane/p4RuntimeSymbolTable.cpp:246-276 | a symbol without a declared id ends with the first id from its hash on that is neither declared nor given to a symbol with a lower name |
| SymbolIdChoice.FreeHashIsGiven | control-plane/p4RuntimeSymbolTable.cpp:246-276 | so it has the id of its hash, unless another symbol has that |
| SymbolIdChoice.CreatedReports | control-plane/p4RuntimeSymbolTable.cpp:221-281 | what is reported, exactly: annotations that do not fit or have the wrong prefix, ids an earlier symbol has asked for, and that a type has more than 2^24 symbols |
| SymbolTables.P4RuntimeSymbolTable.TryToAssignId | control-plane/p4RuntimeSymbolTable.cpp:221-236 | an id already taken is reported and refused; any other, 0 included, is recorded |
| SymbolTables.P4RuntimeSymbolTable.AddSymbol | control-plane/p4RuntimeSymbolTable.cpp:186-195 | a new symbol enters its table and the suffix set; a duplicate changes nothing |
| SymbolTables.P4RuntimeSymbolTable.ProbeForId | control-plane/p4RuntimeSymbolTable.h:177-188 | probing with wrap-around at 32 bits terminates and finds the first free id |
| SymbolIdProofs.ProbeFailsIfExhausted | control-plane/p4RuntimeSymbolTable.h:177-188 | it fails if and only if all ids with the prefix are taken |
| SymbolTables.P4RuntimeSymbolTable.ComputeIdsForSymbols | control-plane/p4RuntimeSymbolTable.cpp:238-281 | the names without an id get one in sorted order, until there is none |
| SymbolTables.Create | control-plane/p4RuntimeSymbolTable.h:109-122 | the table is that of the declarations, with suffix set and tables in step |
| SymbolTables.P4RuntimeSymbolTable.GetAlias | control-plane/p4RuntimeSymbolTable.cpp:217-219 | the alias among all names in the tables |
| SymbolIdProofs.CreatedIdsAreValid | control-plane/p4RuntimeSymbolTable.cpp:238-281 | for every population, ids are distinct across all types and carry their prefix, and ids accepted on declaration stay |
| SymbolIdProofs.CreatedRunsOutIfTooMany | control-plane/p4RuntimeSymbolTable.cpp:264-274 | a type has a symbol without an id if and only if it has more than 2^24 symbols |
| SymbolIdProofs.OrderIsIrrelevant | control-plane/p4RuntimeSymbolTable.cpp:246-250 | all orders of the same declarations give the same tables if and only if no two symbols ask for the same id |
| SymbolIds.NotAfterIsTotalOrder | control-plane/p4RuntimeSymbolTable.cpp:246-250 | names are totally ordered, so that sorting determines the order of hashing |
| SymbolIds.NotAfterIsLexicographic | control-plane/p4RuntimeSymbolTable.cpp:246-250 | the order is that of the first character that differs, a name being before its extensions |
| BigInt.Bitcount | lib/big_int_util.h:76-84 | clearing the lowest one until nothing is left counts the ones |
| BigInt.FloorLog2 | lib/big_int_util.h:91-98 | halving until zero gives the position of the highest one, and -1 if there is none |
| BigInt.PrefixMaskIff | control-plane/p4RuntimeSerializer.cpp:1273-1283 | for masks in width, trailing zeros plus ones equal the width if and only if the mask is that of a prefix |
| BigInt.OverwideMaskPasses | control-plane/p4RuntimeSerializer.cpp:1280-1283 | a mask beyond the width may pass the test |
| BigInt.PrefixMaskMatches | control-plane/p4RuntimeSerializer.cpp:1284-1294 | agreeing under a prefix mask is agreeing in the upper bits |
| Bytestrings.StringReprConstant | control-plane/bytestrings.cpp:40-65 | as many bytes as the width needs, which decode to the value; negative values are an error |
| Bytestrings.BigEndianAt | control-plane/bytestrings.cpp:58-64 | the first byte holds the highest bits |
| Bytestrings.StringReprRoundTrip | control-plane/bytestrings.cpp:40-65 | a value that fits is read back from its bytes |
| Bytestrings.BigEndianInvertsDecode | control-plane/bytestrings.cpp:58-64 | bytes of full length are the form of the number they decode to |
| EntriesConversion.EntriesConverter.AddLpm | control-plane/p4RuntimeSerializer.cpp:1262-1303 | what is appended and reported for a longest-prefix key, in every branch |
| EntriesConversion.EntriesConverter.AddTernary | control-plane/p4RuntimeSerializer.cpp:1305-1338 | the same for a ternary key |
| EntriesConversion.EntriesConverter.AddRange | control-plane/p4RuntimeSerializer.cpp:1340-1375 | the same for a range; one the wrong way round is reported and emitted all the same |
| EntriesConversion.EntriesConverter.AddExact | control-plane/p4RuntimeSerializer.cpp:1252-1260 | the match is appended before the value is known |
| EntriesConversion.EntriesConverter.AddOptional | control-plane/p4RuntimeSerializer.cpp:1377-1387 | the same, unless the key is a don't-care |
| EntriesConversion.EntriesConverter.AddMatchKey | control-plane/p4RuntimeSerializer.cpp:1167-1194 | the loop numbers the matches, not counting unsupported keys |
| EntriesConversion.EntriesConverter.AddAction | control-plane/p4RuntimeSerializer.cpp:1140-1165 | parameters are numbered from 1; one that cannot be translated stays without a value |
| EntriesConversion.EntriesConverter.TableNeedsPriority | control-plane/p4RuntimeSerializer.cpp:1127-1138 | true exactly if some key is ternary, range or optional |
| EntriesConversion.EntriesConverter.AddTableEntries | control-plane/p4RuntimeSerializer.cpp:1069-1123 | to the request so far it appends one update for each entry up to the first that fails to give a priority it needs |
| EntriesLookup.LpmTranslated | control-plane/p4RuntimeSerializer.cpp:1262-1303 | without an error, the prefix match holds exactly where the mask expression matches |
| EntriesLookup.LpmExactlyIfInWidth | control-plane/p4RuntimeSerializer.cpp:1273-1294 | what is emitted for a mask matches what the expression matches, for every packet, if and only if the mask is in width |
| EntriesLookup.KeyTranslated | control-plane/p4RuntimeSerializer.cpp:1252-1387 | the same for every kind of key, also for a range that is reported as the wrong way round; nothing is emitted only where everything matches |
| EntriesLookup.BooleanMatches | control-plane/p4RuntimeSerializer.cpp:1229-1232 | `true` matches 1, `false` matches 0 |
| EntriesErrors.KeyReports | control-plane/p4RuntimeSerializer.cpp:1196-1387 | when each error is reported of a key, exactly: an invalid range if there is no number between two given bounds, an invalid mask if it is not taken for a prefix, an invalid key for each part that is no number, a negative value if one is to be represented |
| EntriesErrors.EntryReports | control-plane/p4RuntimeSerializer.cpp:1092-1165 | the same for an entry, its action and its priority |
| EntriesErrors.KeyEmits | control-plane/p4RuntimeSerializer.cpp:1252-1387 | when a match is emitted for a key, errors or not |
| EntriesErrors.ConvertIsClean | control-plane/p4RuntimeSerializer.cpp:1069-1123 | a table is translated without an error if and only if its keys, actions and priorities are acceptable, each said of the entry alone |
| EntriesErrors.ConvertsUpTo | control-plane/p4RuntimeSerializer.cpp:1092-1101 | there is an update for every entry up to the first that lacks a priority it needs, whatever else is reported |
| EntriesLookup.UpdatesCarryOver | control-plane/p4RuntimeSerializer.cpp:1084-1090 | an update is for its table, and constant if the table or the entry is |
| FieldIds.IdsAgreeExactly | control-plane/p4RuntimeSerializer.cpp:204-255 | for any kinds and `@id` annotations of keys, the ids of emitted matches (control-plane/p4RuntimeSerializer.cpp:1170-1192) are those of the table's match fields if and only if each supported key is in step: its annotation is its number among supported keys, or, without one, that number is given to no key, the unsupported keys before it are annotated, and they have not moved the allocator's search past it |
| EntriesLookup.IdsAgreeExactlyIfAligned | control-plane/p4RuntimeSerializer.cpp:1170-1192 | without annotations this is so if and only if unsupported keys come last |
| FieldIds.MatchFieldIdsAreInOrder | control-plane/p4RuntimeSerializer.cpp:204-255 | without annotations the two passes of the allocator number the keys from 1 |
| EntriesLookup.MatchKeyTranslated | control-plane/p4RuntimeSerializer.cpp:1167-1194 | the matches of an entry hold for the packets its expressions match |
| EntriesLookup.MatchesArePreserved | control-plane/p4RuntimeSerializer.cpp:1069-1123 | every update matches exactly the packets its entry matches |
| EntriesLookup.LookupIsPreserved | control-plane/p4RuntimeSerializer.cpp:1102-1110 | for constant tables that need priorities, the highest-priority update that matches is that of the first entry that matches, and there is none exactly if no entry matches |
| EntriesLookup.PrioritiesAsGiven | control-plane/p4RuntimeSerializer.cpp:1092-1101 | otherwise an update has its entry's priority, or none if none is needed |
| EntriesLookup.GivenPriorityDecides | control-plane/p4RuntimeSerializer.cpp:1092-1101 | for other tables that need priorities, the update that wins is that of the matching entry whose given priority exceeds that of every other matching entry |
| EntriesLookup.ActionIsPreserved | control-plane/p4RuntimeSerializer.cpp:1140-1165 | an update has its entry's action if that is a call, with a parameter in place for each argument, which decodes to the argument, or has no value exactly if that stands for no natural number |
| Vectors.Vector.VisitChildren | ir/ir-inline.h:82-125 | visiting in place is the flat map of what the visitor makes of each original element, in order; it fails exactly if something is of the wrong type |
| Vectors.Vector.ParallelVisitChildren | ir/visitor.h:710-772 | visiting first and splicing afterwards gives the same |
| Vectors.Vector.Overwrite | ir/ir-inline.h:101-117 | making room and overwriting replaces one element by the nodes of another kind of vector |
| Vectors.PieceOfFlatMap | ir/ir-inline.h:82-125 | each original element's replacement is in the result whole, in its place |
| Vectors.FlatMapHolds | ir/ir-inline.h:82-125 | the result holds exactly what the visitor returned for some element: a node, the elements of a vector, or the nodes of another kind of vector |
| Vectors.Vector.Place | ir/ir-inline.h:86-124 | for each kind of answer, what the vector is and where the visit goes on |
| Vectors.FlatMapOfIdentity | ir/ir-inline.h:91-94 | a visitor that leaves everything alone changes nothing |
| IndexedVectors.IndexedVector.Erase | ir/indexed_vector.h:129-132 | erasing keeps the index exact |
| IndexedVectors.IndexedVector.Insert | ir/indexed_vector.h:133-137 | inserting keeps the index exact, and marks the vector invalid exactly if a name is then declared twice |
| IndexedVectors.IndexedVector.Replace | ir/indexed_vector.h:138-143 | the same for replacing |
| IndexedVectors.IndexedVector.RemoveByName | ir/indexed_vector.h:161-170 | erases the first declaration of that name, if there is one |
| IndexedVectors.IndexedVector.PushBack | ir/indexed_vector.h:171-180 | appending keeps the index exact, and marks the vector invalid exactly if a name is then declared twice |
| IndexedVectors.IndexedVector.PopBack | ir/indexed_vector.h:181-186 | takes the last element out of vector and index; in a valid vector it fails only if there is none |
| IndexedVectors.IndexedVector.GetDeclaration | ir/indexed_vector.h:98-102 | looks the name up; in a valid vector it finds a declaration exactly if the vector holds one of that name |
| IndexedVectors.IndexedVector.VisitChildren | ir/ir-inline.h:151-177 | the flat map again; it succeeds with an exact index if and only if everything returned can be indexed and no name is declared twice at any stage; otherwise it stops with the elements visited so far in place |
| IndexedVectors.ExactLookup | ir/indexed_vector.h:224-233 | an exact index finds every declaration in the vector |
| IndexedVectors.SwappingNamesClashes | ir/ir-inline.h:170-173 | swapping two names clashes on the way though names are distinct before and after |
| BitVecs.BitVec.ShiftLeft | lib/bitvec.cpp:105-122 | the words become those of the number times a power of two, with no bit lost |
| BitVecs.BitVec.ShiftRight | lib/bitvec.cpp:79-103 | the number is divided by a power of two, rounding down, and words of zero are dropped |
| Words.ShiftedLeftValue | lib/bitvec.cpp:112-120 | combining neighbouring words shifts the whole number |
| Words.ShiftedRightValue | lib/bitvec.cpp:87-93 | the same to the right |
| BitVecs.BitVec.Expand | lib/bitvec.h:614-638 | growing keeps the number |
| BitVecs.RoundUpBounds | lib/bitvec.h:616-624 | rounding never shrinks and adds at most a quarter |
| BitVecs.Smear | lib/bitvec.h:616-623 | the shifts and ors fill all bits below the highest |
| BitVecs.BitVec.Ffs | lib/bitvec.cpp:151-163 | the lowest bit from a start on, or -1 |
| BitVecs.BitVec.Following | lib/bitvec.h:147-159 | the next bit after one, or -1 |
| BitVecs.BitVec.Preceding | lib/bitvec.h:160-171 | the bit before one, or before the end, or -1 |
| BitVecs.BitVec.Print | lib/bitvec.cpp:25-42 | what is printed reads as the number |
| BitVecs.BitVec.Parse | lib/bitvec.cpp:66-77 | fails exactly if something is no hexadecimal digit, else gives the number read |
| BitVecs.PrintAndParse | lib/bitvec.cpp:25-77 | printing any vector and parsing that into any other makes them equal |
| HexText.TextRoundTrip | lib/bitvec.cpp:25-77 | for any number of words, leading zero words or not, the text is the number in hexadecimal without leading zeros, and reads back |
| HexText.HexDigits | lib/bitvec.cpp:66-77 | the digits written, in lower case, and those read, in either |
| BitRuns.CountBits | lib/bitvec.h:606-610 | adding up the words' ones counts the bits |
| BitRuns.IsContiguous | lib/bitvec.cpp:178-182 | true exactly if the bits are those between two bounds |
| BitRuns.RunIterator.Advance | lib/bitrange.h:42-50 | goes to a run that cannot be made longer, starting at the first bit not yet passed |
| BitRuns.Runs | lib/bitrange.h:34-63 | going through all gives every maximal run, in ascending order |
| BitRuns.RunsPartition | lib/bitrange.h:34-63 | the runs ascend and do not touch, and are together exactly the bits |
| BitRuns.OneRunIffInterval | lib/bitvec.cpp:178-182 | there is exactly one run if and only if the bits are contiguous |
| BitSets.OrWith | lib/bitvec.h:471-489 | the union of bits, growing as needed, and whether there was anything new |
| BitSets.AndWith | lib/bitvec.h:429-459 | the intersection, and whether anything was lost |
| BitSets.Without | lib/bitvec.h:537-557 | the difference, and whether anything was lost |
| BitSets.SetRange | lib/bitvec.h:280-296 | adds exactly the bits of a range |
| BitSets.ClrRange | lib/bitvec.h:340-361 | takes away exactly the bits of a range |
| BitSets.RotateRightInPlace | lib/bitvec.cpp:184-205 | rotating in place, put together from the set operations, gives the rotated number |
| BitSets.RotateRightToCopy | lib/bitvec.cpp:207-212 | rotating a copy likewise |
| Rotation.BitOfRotateRight | lib/bitvec.cpp:195-205 | each bit of the result is the bit that was where it comes from |
| Rotation.RotationIsBijection | lib/bitvec.cpp:195-200 | each bit of the section goes to one place in it, the pivot to the start |
| Rotation.RotationsAgree | lib/bitvec.cpp:201-212 | in place and copying agree |
| Rotation.RotatingBack | lib/bitvec.cpp:201-205 | rotating by the rest of the section undoes it |
| Ranges.FloorDivision | lib/bitrange.h:77-129 | for positive divisors, quotient and remainder satisfy the law of division that rounds down |
| Ranges.FastFormsAgree | lib/bitrange.h:78-123 | the shift and the mask agree with the slow forms, for negative numbers too |
| Ranges.LeastEnclosingBytes | lib/bitrange.h:452-463 | a range of bytes holds the bits exactly if it holds the bytes they convert to |
| Ranges.UnitRoundTrips | lib/bitrange.h:336-349 | bytes to bits and back loses nothing; the other way round exactly if both ends are aligned |
| Ranges.SubtractionIsDifference | lib/bitrange.h:715-729 | two disjoint ranges, the lower first, that are together the set difference |
| Ranges.IntersectionContains | lib/bitrange.h:376-381 | what is in both is in the intersection and nothing else |

## Left out

- Statement splitter: loops (refused by the source as well), jumps such as `return` and `exit`, statement nodes that occur twice, declaration initialisers, source positions, and the type of a selector; fresh names are modelled by numbered names of their own.
- Traversal: `Modifier`, nodes that are to be visited again (`visitAgain`), hooks that set the prune flag, cyclic IR, and hooks that depend on the context; hooks are functions of a node's tag and of the trees below it.
- Transformer.Transform.VisitReplaced: what a preorder hook puts in place of a node is one fresh node over some of the node's children. Fresh nodes below it are not modelled: the source calls the hooks on them in turn (ir/visitor.cpp:570-580), so that termination would rest on the hooks. Nor is a replacement that is an existing node, finished (ir/visitor.cpp:566-569) or not: whether it is finished depends on the order of visits.
- Transformer.Transform.VisitEdited: editing in place changes the tag and which of the children are kept, in which order; it does not put fresh nodes below the argument, for the same reason.
- Transformer.Transform.ForwardChildren: forwarding replaces children one by one; that a `Vector` is spliced when its children are forwarded (ir/visitor.cpp:461-471) is left to Vectors.Vector.VisitChildren, where splicing is modelled.
- SplitterMeaning.FilterKeepsMeaning: declarations do nothing when run, so that scopes and initialisers are outside what it states.
- Control flow: `ForInStatement`, `switch`, visitors with `visitDagOnce`, joins of flows at shared nodes, and accumulators other than those of break and continue.
- PassManagement.PassManager.ApplyVisitor: a run is stated for any given number of turns, since passes may trigger for ever; debug hooks and error counting are part of what a pass returns.
- SymbolTables.P4RuntimeSymbolTable.AddSymbol: names are not empty, as the source checks.
- SymbolIdProofs.CreatedIdsAreValid: declarations ask for ids by annotation; an explicit 0 passed to `add` is recorded as the source does, but no declaration asks for it.
- Symbol table: the collectors that walk the program, and the hash itself.
- Entries: errors for `@id` annotations of match fields that are 0 or given twice, warnings, the deprecated priority annotation, and casts that change a value; masks of longest-prefix keys are literals, as the source assumes.
- EntriesLookup.LookupIsPreserved: masks of longest-prefix keys are within their width (EntriesLookup.LpmExactlyIfInWidth says what happens otherwise) and members name enumeration values, as earlier passes see to.
- BitVecs.BitVec.Expand: vectors of 2^35 words or more, for which the 32-bit smear of the source is not meant.
- Bit vectors: the inline word of small vectors, copying and moving, parsing from a stream, `ffz`, `getrange`, `putrange`, comparison, and `getslice`; shifting an empty one-word vector by exactly 64 leaves it empty here, where the C++ shift is undefined.
- Vectors: null elements; the clones that `SplitFlowVisitVector` visits with are one visitor here, which may depend on the position, and are never paused.
- IndexedVectors.IndexedVector: iterators, which are positions here, and what becomes of the index after a vector has become invalid, except that the vector stays so.
- Ranges: negative divisors, overflow of machine integers, ranges whose ends are the wrong way round, closed ranges, and byte order.
