# Verified model of the bundled matching, option and quoting code

This project models four pieces of C code from `gnulib-lib/` and proves what they are for.

**The regular expression engine** (`regcomp.c`, `regex_internal.c`, `regex_internal.h`, `regexec.c`), for single-byte
locales without translation, anchors and back-references (POSIX.1-2008 XBD, section 9).  The stages follow one another
as in the code:

1. `RegexLanguage`: parse trees and the language of each; `TreeStorage`: the tree cells with their parent pointers, the
   stackless walks and `duplicate_tree`; `Repetition`: interval expressions.
2. `SubexpPasses`: the two passes that drop and lower subexpressions in place; `SubexpLaws`: which of them go and where
   the markers of the others stand; `NfaBuilder`: the three passes that number the nodes and link them; `Automaton`: why
   the linked automaton spells the language of the tree.
3. `NodeSets`: the sorted arrays and their in-place operations; `Closures`: epsilon closures on cyclic graphs and their
   inverse.
4. `StateTable`: the hash table of DFA states; `Grouping`: the nodes of a state grouped by byte classes; `Transitions`:
   lazily built transition tables; `Capacity`: when the fixed arrays of groups suffice.
5. `Matching`: the longest match from one start; `Sifting`: pruning the state log after a match; `Searching`: the
   first-byte filter and the search over a range of starts; `Compiler`: everything from the parse tree to the result.

The result at the end of the chain is `Compiler.CompileAndSearch`: for every well-formed expression that fits the group
arrays (see below) and every text the compiled, lazily determinized, filtered search finds the first starting point with
a match and its longest match, as the language of the expression defines them.

The modules from `Closures` on hold node sets as values; `NodeSets` proves that the array operations of the C code
compute these values in place (`Merged`, `AddedCommon`, `Inserted`).

**`memchr.c`** (`MemChr`): the word-at-a-time search.  **`getopt.c`** (`GetOpt`, `GetOptLaws`): the scanner that permutes
argv, against a left-to-right scan that moves nothing, and what that scan reports.  **`quotearg.c`** (`Quoting`,
`QuotingReaders`, `QuotingLaws`, `QuoteArg`): the quoting styles, the readers that undo them, when and how they quote,
and the loop that stores the output and may start over.

`dafny verify dfyconfig.toml` verifies the whole project.

Points where the code needs care, and how the model treats them:

- `re_node_set_insert` is called by `calc_eclosure_iter` with an element that may be there already (`a**`), so closures
  are stated as weakly sorted arrays with an exact set of elements.
- `duplicate_tree` never stops at its root, only at the top of the tree; it is proved for roots on the right edge of
  their tree, which is where `parse_dup_op` calls it.
- The arrays of byte groups in `build_trtable` hold SBC_MAX entries, and every empty bracket gets a group of its own.  The
  number of groups is proved exactly, so the arrays suffice for a state if and only if its byte classes and its empty
  brackets are at most SBC_MAX together (`Grouping.GroupNodes`).  `Capacity.RoomFor` says this of every state that a run
  can reach, and is what `TransitState`, `CheckMatching` and `Search` need.  A caller can check it on the expression:
  `Capacity.GroupBound` counts the byte classes that its leaves tell apart and its empty brackets, and at most SBC_MAX of
  them is enough; without empty brackets it always is.  The code does not have the property for all expressions: an
  optional empty bracket repeated 257 times (in a locale where `[^[:cntrl:][:print:]]` is empty, for example) needs 257
  groups in its initial state (`Capacity.TooManyEmptyBrackets`), one more than the arrays hold.
- The restart of `calc_eclosure` for incomplete entries is in the model, and never happens.
- `can_be_null` stays false for an expression such as `.*`, because the period comes first in the initial state; the
  filter then passes every byte, so that the search is still right.
- C-family output is read back for every argument exactly when no character that a backslash changes is to be quoted on
  request, or outer quotes are elided; these characters are the octal digits, `a b f n r t v`, and `x u U`.  The reader
  takes a backslash before any other character as that character.  `CFamilyRoundTripExactly` states both directions.
- The comment on `quote_these_too` (`quotearg.c:63-65`) has requested characters quoted even if the style would not quote
  them; in style c-maybe a requested backslash alone does not lead to quotes (`QuotingLaws.BackslashStaysUnquoted`), every
  other requested character does (`RequestsAreQuoted`).
- Shell quoting judges `#`, `~`, `{` and `}` by their place in the argument with its null bytes.  Where these are elided,
  a null byte in front of such a character leaves it at the start of an unquoted word;
  `QuotingLaws.ShellRoundTripExactly` says exactly when the word is read back, and `ElidedNullExposes` gives an argument
  for which it is not.
- A caller's loop over `getopt_long` stops early at a long option whose value is -1; `ScanAll` says so.

## Model

| member | source | states |
|---|---|---|
| `RegexLanguage.PeriodSpells` | gnulib-lib/regexec.c:4111-4115 | a period spells each single byte but byte 10, unless the syntax has RE_DOT_NEWLINE, and but byte 0, if it has RE_DOT_NOT_NULL |
| `RegexLanguage.CharacterSpells` | gnulib-lib/regexec.c:4095-4098 | a character spells itself only |
| `RegexLanguage.BracketSpells` | gnulib-lib/regexec.c:4100-4103 | a bracket spells exactly the bytes of its set |
| `RegexLanguage.LeafSpellsLength` | gnulib-lib/regexec.c:4090-4119 | nodes that accept bytes spell words of one byte, markers only the empty word |
| `RegexLanguage.ConcatSpellsPairs` | gnulib-lib/regcomp.c:2204-2250 | a concatenation spells the words of the left tree followed by those of the right one |
| `RegexLanguage.AlternativeSpellsEither` | gnulib-lib/regcomp.c:2163-2202 | an alternative spells what either branch spells; a missing branch is the empty word |
| `RegexLanguage.SubexpSpellsBody` | gnulib-lib/regcomp.c:2467-2509 | a subexpression spells what its body spells |
| `Automaton.WordsHavePaths` | gnulib-lib/regcomp.c:1393-1494 | every word of the tree leads from its entry node to the node behind the tree |
| `Automaton.PathsSpellWords` | gnulib-lib/regcomp.c:1393-1494 | every path from the entry of a tree to END_OF_RE first spells a word of the tree, then goes on, strictly shorter, behind it |
| `Automaton.WiredAutomatonSpellsTree` | gnulib-lib/regcomp.c:1393-1494 | the tree-to-automaton compiler preserves meaning: paths from the first node to END_OF_RE spell exactly the tree's language |
| `NodeSets.MergedItems` | gnulib-lib/regex_internal.c:1193-1274 | merge is set union, keeps sortedness, and strictness when both inputs are strict |
| `NodeSets.MergedCount` | gnulib-lib/regex_internal.c:1193-1274 | merge keeps for every element the larger of the two multiplicities |
| `NodeSets.AddedCommonItems` | gnulib-lib/regex_internal.c:1048-1138 | add_intersect is dest together with the intersection of the two sources, sorted |
| `NodeSets.InsertedItems` | gnulib-lib/regex_internal.c:1276-1326 | insert adds the element and nothing else |
| `NodeSets.InsertedSorted` | gnulib-lib/regex_internal.c:1276-1326 | insert keeps weak sortedness even when the element is there already |
| `NodeSets.InsertedStrict` | gnulib-lib/regex_internal.c:1276-1326 | a strict set stays strict exactly when the element was absent, which is what the comment asks for |
| `NodeSets.UnionIsMerge` | gnulib-lib/regex_internal.c:1140-1191 | on sorted sets the front-to-back union and the in-place merge give the same array |
| `NodeSets.NodeSet.InitUnion` | gnulib-lib/regex_internal.c:1140-1191 | a null or empty source is ignored; otherwise the new array is the merge of the two |
| `NodeSets.NodeSet.CollectExtra` | gnulib-lib/regex_internal.c:1220-1239 | the scratch area at the top of the same array receives the items dest lacks, stays above dest and within alloc |
| `NodeSets.NodeSet.CollectCommon` | gnulib-lib/regex_internal.c:1073-1105 | the scratch area receives the common items dest lacks; the blend that follows has room for them |
| `NodeSets.NodeSet.BlendFromTop` | gnulib-lib/regex_internal.c:1241-1271 | the two-pointer blend in one array moves every item before its place is overwritten |
| `NodeSets.NodeSet.Merge` | gnulib-lib/regex_internal.c:1193-1274 | the in-place merge computes Merged of the old contents, growing the array when alloc is too small |
| `NodeSets.NodeSet.AddIntersect` | gnulib-lib/regex_internal.c:1048-1138 | the in-place operation computes AddedCommon of the old contents |
| `NodeSets.NodeSet.Insert` | gnulib-lib/regex_internal.c:1276-1326 | the in-place insertion computes Inserted of the old contents |
| `NodeSets.NodeSet.Contains` | gnulib-lib/regex_internal.c:1368-1390 | the binary search returns one more than an index of the element, or 0 exactly when it is absent |
| `NodeSets.NodeSet.Compare` | gnulib-lib/regex_internal.c:1352-1366 | true exactly when both arrays have the same contents |
| `TreeStorage.VisitedOnce` | gnulib-lib/regcomp.c:1237-1300 | both visiting orders contain every node of the tree exactly once |
| `TreeStorage.TreeStore.Preorder` | gnulib-lib/regcomp.c:1272-1300 | the stackless walk visits the nodes in the order of the recursive definition, whatever children are missing |
| `TreeStorage.TreeStore.Postorder` | gnulib-lib/regcomp.c:1240-1270 | the same for the postorder walk |
| `TreeStorage.TreeStore.UpAndRight` | gnulib-lib/regcomp.c:1288-1298 | climbing by parent pointers finds the next node of the preorder, or the top |
| `TreeStorage.TreeStore.DuplicateTree` | gnulib-lib/regcomp.c:3887-3930 | exactly the subtree is copied behind the old cells, although the root's parent is not null, because the root stands on the right edge of its tree |
| `TreeStorage.CopySpells` | gnulib-lib/regcomp.c:3887-3930 | the copy has the language of the original |
| `TreeStorage.CopyKeepsShape` | gnulib-lib/regcomp.c:3887-3930 | the copy has the tokens of the original at the same places |
| `TreeStorage.CreateTree` | gnulib-lib/regcomp.c:3804-3847 | a new node above two separate trees, whose parent pointers are redirected |
| `Repetition.ParseDupOp` | gnulib-lib/regcomp.c:2567-2650 | REG_BADBR for a reversed range, else REG_ESIZE exactly for a bound above 32767; otherwise the tree spells the words made of k words of the element for k in the range |
| `Repetition.CharacterRepeats` | gnulib-lib/regcomp.c:2567-2650 | for one character that is: the words of this character alone whose length is within the bounds |
| `Repetition.ConcatSpells` | gnulib-lib/regcomp.c:2597-2648 | repetitions in sequence add up their ranges |
| `Repetition.StarSpells` | gnulib-lib/regcomp.c:2622-2623 | the star node spells any number of repetitions |
| `Repetition.OptionSpells` | gnulib-lib/regcomp.c:2631-2645 | an alternative with a missing branch adds the empty word to the range |
| `Repetition.NullSpells` | gnulib-lib/regcomp.c:2589-2595 | the results NULL for a missing element and for {0,0} are right |
| `SubexpPasses.OptimizedSpells` | gnulib-lib/regcomp.c:1302-1332 | removing subexpression nodes does not change the language |
| `SubexpLaws.OptimizedDrops` | gnulib-lib/regcomp.c:1317-1329 | the pass drops SUBEXP nodes if and only if some subexpression is the whole of another one, and otherwise changes nothing |
| `SubexpLaws.OptimizedHalvesRuns` | gnulib-lib/regcomp.c:1317-1329 | of n subexpressions nested directly in each other the first, third and so on stay, (n + 1) / 2 in all, with their cells and numbers and around the same body |
| `SubexpLaws.OptimizedOthers` | gnulib-lib/regcomp.c:1302-1332 | any other node stays as it is, above its optimized subtrees |
| `SubexpLaws.OptimizedKeepsOthers` | gnulib-lib/regcomp.c:1302-1332 | no node but SUBEXP nodes is lost or doubled |
| `SubexpLaws.OptimizedFrontier` | gnulib-lib/regcomp.c:1302-1332 | the leaves keep their order |
| `SubexpPasses.OptimizeSubexps` | gnulib-lib/regcomp.c:1302-1332 | the preorder walk that rewires the children while it runs produces the optimized tree in place |
| `SubexpPasses.LoweredSpells` | gnulib-lib/regcomp.c:1334-1391 | the lowered tree has the language of the original |
| `SubexpPasses.LoweredReady` | gnulib-lib/regcomp.c:1334-1391 | after lowering no SUBEXP node is left and the shape is what the node builder needs |
| `SubexpLaws.LoweredBrackets` | gnulib-lib/regcomp.c:1363-1390 | from left to right the lowered tree has the leaves of the original between balanced markers, each opening before its closing one; with registers one pair for every subexpression, without them one for every empty one |
| `SubexpLaws.LoweredEncloses` | gnulib-lib/regcomp.c:1376-1390 | the markers of a subexpression stand directly around the leaves of its body, at their place among the others |
| `SubexpPasses.LowerSubexps` | gnulib-lib/regcomp.c:1334-1391 | the postorder walk that replaces nodes while it runs lowers the whole tree in place |
| `NfaBuilder.FirstPassNumbers` | gnulib-lib/regcomp.c:1393-1414 | calc_first numbers the nodes of the tree consecutively; a concatenation shares the number of its left child |
| `NfaBuilder.NextPassLinks` | gnulib-lib/regcomp.c:1416-1437 | calc_next gives every subtree the node that follows it |
| `NfaBuilder.FoldLinkFills` | gnulib-lib/regcomp.c:1439-1494 | link_nfa_nodes fills the tables completely, in whatever order the nodes are visited |
| `NfaBuilder.NumbersDiffer` | gnulib-lib/regcomp.c:1393-1414 | different cells with entries of their own have different numbers, so no entry is overwritten |
| `NfaBuilder.LinkedIsWired` | gnulib-lib/regcomp.c:1439-1494 | the three passes together wire the fragment of the tree |
| `NfaBuilder.LinkedTablesSpell` | gnulib-lib/regcomp.c:1393-1494 | the linked tables spell the language of the expression, with one END_OF_RE node |
| `NfaBuilder.CalcNext` | gnulib-lib/regcomp.c:1416-1437 | the walk with calc_next as its callback computes the fold over the preorder |
| `NfaBuilder.Analyze` | gnulib-lib/regcomp.c:1174-1235 | from any well-formed parse tree the passes build an automaton that spells exactly its language; its leaf nodes are those of the expression, in their order, between the balanced markers of the subexpressions that optimizing leaves |
| `NfaBuilder.RootTokens` | gnulib-lib/regcomp.c:1393-1414 | the automaton has exactly the byte nodes of the expression |
| `NfaBuilder.NumberedLeaves` | gnulib-lib/regcomp.c:1393-1414 | numbering in postorder keeps the leaves in their order |
| `Closures.CutAt` | gnulib-lib/regcomp.c:1747-1751 | an epsilon path either avoids a node or can be cut where it visits it |
| `Closures.LeaveForGood` | gnulib-lib/regcomp.c:1739-1780 | what a node reaches it reaches from a successor without coming back, so skipping active nodes loses nothing at the root |
| `Closures.ClosureTable.CalcEclosureIter` | gnulib-lib/regcomp.c:1711-1785 | terminates on cyclic graphs; the result is complete up to the active nodes, and only certainly complete results are stored |
| `Closures.ClosureTable.CalcEclosure` | gnulib-lib/regcomp.c:1666-1707 | every stored closure is exact epsilon reachability, and repeats only epsilon nodes |
| `Closures.ClosureTable.CalcInveclosure` | gnulib-lib/regcomp.c:1642-1662 | the inverse closures list, in order, the sources whose closure holds the node |
| `Closures.ClosureTable.InverseIsConverse` | gnulib-lib/regcomp.c:1642-1662 | the inverse closure is the exact converse of epsilon reachability |
| `Closures.ReachesIsReach` | gnulib-lib/regcomp.c:1739-1780 | epsilon reachability is reaching by the empty word |
| `StateTable.CalcStateHash` | gnulib-lib/regex_internal.c:1457-1466 | the wrapped sum of size, context and elements |
| `StateTable.HashAddsUp` | gnulib-lib/regex_internal.c:1457-1466 | an element adds itself and one for its place, modulo 2^64; the context is the start |
| `StateTable.HashFixesContext` | gnulib-lib/regex_internal.c:1495-1505 | equal hashes of the same nodes mean equal contexts, so the lookup that does not compare contexts is right |
| `StateTable.Dfa.AcquireStateContext` | gnulib-lib/regex_internal.c:1515-1560 | the state for the nodes and the context: the old one if there is one, with the table unchanged, or else one new state; none for the empty set |
| `StateTable.Dfa.AcquireState` | gnulib-lib/regex_internal.c:1468-1513 | the same for context 0 |
| `StateTable.Dfa.Register` | gnulib-lib/regex_internal.c:1562-1600 | the table only grows, no state is dropped, moved or duplicated, and cached tables stay valid |
| `StateTable.AcquireAll` | gnulib-lib/regex_internal.c:1468-1560 | over any run of calls of the two entry points equal requests get the same object and different ones different objects, each matching its request |
| `StateTable.DfaState.constructor` | gnulib-lib/regex_internal.c:1618-1666 | halt and the non-epsilon nodes describe the node set |
| `Grouping.GroupNodes` | gnulib-lib/regexec.c:3584-3771 | the byte sets are disjoint and cover exactly the accepted bytes, each group is exactly the nodes that accept every byte of its set, and the number of groups is exactly the number of byte classes plus the occurrences of empty brackets, so the arrays suffice if and only if that is at most SBC_MAX |
| `Grouping.NodeIsGrouped` | gnulib-lib/regexec.c:3610-3629 | a node is in a group for exactly its character, the bytes of its bracket, or, for a period, every byte but 10 without RE_DOT_NEWLINE and but 0 with RE_DOT_NOT_NULL |
| `Grouping.Divide` | gnulib-lib/regexec.c:3705-3764 | distributing one node's bytes splits groups as needed and keeps different classes apart, terminates although groups are appended, and uses up `accepts`; only an empty bracket adds an empty group |
| `Grouping.Split` | gnulib-lib/regexec.c:3734-3744 | splitting a group keeps the sets disjoint and the cover exact |
| `Grouping.Take` | gnulib-lib/regexec.c:3746-3753 | a group whose bytes the node all accepts takes the node in |
| `Grouping.ClassesFit` | gnulib-lib/regexec.c:3369-3373 | there are never more classes of bytes than SBC_MAX, whatever the nodes |
| `Grouping.GroupsCounted` | gnulib-lib/regexec.c:3705-3764 | exact groups of different classes are as many as the classes and the empty groups |
| `Capacity.BoundGivesRoom` | gnulib-lib/regexec.c:3369-3373 | when the leaves of the expression tell apart so few classes that they and its empty brackets are at most SBC_MAX, no state of any run needs more groups |
| `Capacity.NoEmptyBracketsFit` | gnulib-lib/regexec.c:3705-3706 | expressions without empty brackets always fit, which is what the comment relies on |
| `Capacity.OptionalEmptyBrackets` | gnulib-lib/regexec.c:3755-3764 | an optional empty bracket repeated n times fits if and only if n is at most SBC_MAX |
| `Capacity.TooManyEmptyBrackets` | gnulib-lib/regexec.c:3755-3764 | repeated 257 times, it needs 257 groups in the initial state, more than the arrays hold |
| `Transitions.FollowsExist` | gnulib-lib/regexec.c:3455-3471 | the follows of a group are never empty, so its destination state exists |
| `Transitions.GroupIsMove` | gnulib-lib/regexec.c:3455-3466 | subset construction: for every byte of its set, the follows of a group are what the whole node set becomes |
| `Transitions.BuildTrtable` | gnulib-lib/regexec.c:3348-3582 | when the groups of the state fit the arrays, every table entry is the state of all nodes reached by that byte, or null when there is none |
| `Transitions.TransitState` | gnulib-lib/regexec.c:2286-2342 | the table is built on demand, for a state whose groups fit, and the transition is the exact one |
| `Matching.ReachOneMore` | gnulib-lib/regexec.c:2286-2342 | what is reached by one more byte |
| `Matching.StateStep` | gnulib-lib/regexec.c:1168-1188 | after any input prefix the DFA state's node set equals the set the automaton reaches |
| `Matching.StateFits` | gnulib-lib/regexec.c:3362-3373 | every state a run reaches fits the arrays when the automaton has room |
| `Matching.LaterMatchExtends` | gnulib-lib/regexec.c:1204-1210 | a match starting where the run is back in the initial state extends to a match from the start |
| `Matching.CheckMatching` | gnulib-lib/regexec.c:1098-1236 | when every state of a run has room for its groups: the longest (or shortest) end whose prefix is in the language, REG_MISSING exactly when there is none; match_first moves only on failure, by as many bytes as the run stays in the initial state; the log is exact |
| `Matching.BestDead` | gnulib-lib/regexec.c:1190-1202 | once the state is NULL no longer match can follow |
| `Searching.CompileFastmap` | gnulib-lib/regcomp.c:271-433 | the filter passes exactly the bytes some initial node accepts, or all when a period or the end node is among them |
| `Searching.FilterPasses` | gnulib-lib/regcomp.c:271-433 | the filter passes a byte if and only if the empty word matches, an initial node is a period, or one is that character or a bracket with it |
| `Searching.FilterIsSafe` | gnulib-lib/regexec.c:756-803 | a rejected byte, or the zero behind the text, starts no match |
| `Searching.SkippedHaveNone` | gnulib-lib/regexec.c:1204-1233 | the starting points that a failed run jumps over have no match |
| `Searching.SkipByFilter` | gnulib-lib/regexec.c:761-803 | moving to the next start whose byte passes the filter skips no start with a match, forward and backward |
| `Searching.Search` | gnulib-lib/regexec.c:738-889 | when every state of a run has room for its groups: the search with filter and jumps finds the first start in order that has a match, and its longest match; sifting never makes it go on |
| `Searching.FirstMatchIsUnique` | gnulib-lib/regexec.c:738-889 | only one such result exists, so the search agrees with trying every start |
| `Compiler.CreateInitialState` | gnulib-lib/regcomp.c:1012-1090 | the initial state is the closure of the first node |
| `Compiler.Compile` | gnulib-lib/regcomp.c:820-832 | every well-formed expression compiles to a DFA that recognizes its language, and that has room for all its states when the bound of the expression is at most SBC_MAX |
| `Compiler.CompileAndSearch` | gnulib-lib/regexec.c:624-889 | end to end for every expression whose byte classes and empty brackets are at most SBC_MAX together: compile, build the filter, search |
| `Sifting.AddEpsilonSrcNodes` | gnulib-lib/regexec.c:1847-1874 | dest and the candidates that reach it by epsilon moves; the inverse closure is computed once per state |
| `Sifting.UpdateCurSiftedState` | gnulib-lib/regexec.c:1799-1845 | the sifted entry is exactly those nodes, null when dest is empty |
| `Sifting.BuildSiftedStates` | gnulib-lib/regexec.c:1684-1742 | the nodes that accept the next byte and lead into the next sifted state |
| `Sifting.SiftStep` | gnulib-lib/regexec.c:1649-1677 | one position back, the entry is again exactly the logged nodes that lead to the last node |
| `Sifting.NothingBefore` | gnulib-lib/regexec.c:1651-1659 | an empty entry means that all earlier ones are empty, as the early exit assumes |
| `Sifting.SiftStatesBackward` | gnulib-lib/regexec.c:1603-1682 | every sifted entry is exactly the logged nodes from which last_node is reached on the rest of the match |
| `Sifting.PruneImpossibleNodes` | gnulib-lib/regexec.c:969-1059 | after a successful match the first sifted entry is not empty, so the match is never given up |
| `Sifting.CheckHaltState` | gnulib-lib/regexec.c:1259-1274 | the halting node of a halting state is found |
| `MemChr.MinusOnesValue` | gnulib-lib/memchr.c:117-137 | subtracting 1 from every byte with borrows is wrapping subtraction of the whole word |
| `MemChr.AnyWidthTest` | gnulib-lib/memchr.c:86-140 | for any word size the test is nonzero exactly when some byte is zero |
| `MemChr.XorIsBytewise` | gnulib-lib/memchr.c:111-115 | exclusive or with the repeated byte acts on each byte by itself |
| `MemChr.WordTest` | gnulib-lib/memchr.c:142-151 | on 64-bit words the test is nonzero exactly when one of the bytes is c |
| `MemChr.LoadTest` | gnulib-lib/memchr.c:142-151 | the test on a word in memory, for both byte orders |
| `MemChr.RepeatedBytes` | gnulib-lib/memchr.c:89-109 | the shifts build the constants with 1 and c in every byte |
| `MemChr.MemChr` | gnulib-lib/memchr.c:57-168 | the first index of c below n, or NULL, for every buffer, alignment and n |
| `GetOpt.Exchange` | gnulib-lib/getopt.c:134-220 | the two adjacent parts are exchanged, each keeping its order, and nothing is added or lost |
| `GetOpt.FindLong` | gnulib-lib/getopt.c:494-599 | an exact name wins; otherwise an abbreviation must be unique, up to options that mean the same |
| `GetOpt.GetoptData.DecodeElement` | gnulib-lib/getopt.c:461-783 | decoding one option leaves in the fields what the reference decoder says |
| `GetOpt.GetoptData.TakeShort` | gnulib-lib/getopt.c:1057-1124 | a short option with no, an optional or a required argument, taken from the same element or the next one |
| `GetOpt.GetoptData.TakeLong` | gnulib-lib/getopt.c:601-722 | decoding a long option that was found leaves in the fields what the reference decoder says |
| `GetOpt.RequiredArgument` | gnulib-lib/getopt.c:1073-1121 | a required argument is the rest of the element, or else the whole next element; with neither, ':' is reported if the option string starts with one and '?' otherwise |
| `GetOpt.OptionalArgument` | gnulib-lib/getopt.c:1059-1070 | an optional argument only comes from the same element |
| `GetOpt.ClusterEvents` | gnulib-lib/getopt.c:787-793 | a cluster of options without arguments is reported character by character and uses up its element |
| `GetOpt.LongArgument` | gnulib-lib/getopt.c:601-722 | a long option takes the text behind '=' or, only when it requires an argument, the next element; it is reported by its value, or by 0 with the value stored where its flag says; an unwanted or missing argument is reported by '?' or ':' |
| `GetOptLaws.ExactNameFound` | gnulib-lib/getopt.c:502-510 | the first option of exactly this name is found, even beside longer names |
| `GetOptLaws.AbbreviationMatch` | gnulib-lib/getopt.c:498-591 | without an exact name: not found if nothing starts with the text, ambiguous if and only if two options that do differ in has_arg, flag or val (or under long_only), and otherwise the first of them |
| `GetOptLaws.LongOptionFails` | gnulib-lib/getopt.c:588-782 | an unknown or ambiguous option after two dashes is reported by '?' with optopt 0 |
| `GetOptLaws.NoLongOptions` | gnulib-lib/getopt.c:476-479 | without long options every element is a cluster of short ones |
| `GetOptLaws.SingleDash` | gnulib-lib/getopt.c:463-479 | after one dash long options are tried only under long_only, not for one declared character, and an unknown name that starts with a declared character is a cluster |
| `GetOptLaws.UnknownCharacter` | gnulib-lib/getopt.c:795-830 | a character that is not declared is reported by '?' with itself in optopt, and the scan goes on behind it |
| `GetOptLaws.ShortElementScanned` | gnulib-lib/getopt.c:457-458 | the text of a short element starts behind its dash |
| `GetOptLaws.LongElementScanned` | gnulib-lib/getopt.c:455-722 | an element of two dashes and an exact name is reported by its value, or by 0 with the flag set, and is used up |
| `GetOptLaws.LongArgumentScanned` | gnulib-lib/getopt.c:674-677 | a required argument in the next element is reported with the option, and both elements are used up |
| `GetOptLaws.OperandScanned` | gnulib-lib/getopt.c:239-254 | at an element without a dash, or of only a dash: '-' in front of the option string reports it by 1; '+' there, or the environment, ends the scan; otherwise it is set aside |
| `GetOptLaws.OptionsEnd` | gnulib-lib/getopt.c:412-429 | behind "--" everything is an operand |
| `GetOpt.GetoptData.SkipOperands` | gnulib-lib/getopt.c:393-410 | exchanging and passing over operands leaves the rest of the scan unchanged |
| `GetOpt.GetoptData.EndOptions` | gnulib-lib/getopt.c:412-429 | at "--" the rest becomes operands and "--" itself moves in front of them |
| `GetOpt.GetoptData.GetoptInternalR` | gnulib-lib/getopt.c:345-1125 | each call reports the next event of the left-to-right scan, or its end, under all three orderings, and leaves argv a permutation |
| `GetOpt.ScanSplits` | gnulib-lib/getopt.c:289-343 | a scan splits the arguments into used elements and operands, both in original order |
| `GetOpt.ShuffleKeepsItems` | gnulib-lib/getopt.c:134-142 | nothing is added or lost |
| `GetOpt.ScanAll` | gnulib-lib/getopt.c:289-343 | finitely many calls report exactly the events of the scan, up to a long option that is itself reported by -1; argv is permuted with options and "--" first and the operands from optind on, in original order |
| `Quoting.AlwaysFits` | gnulib-lib/quotearg.c:649-655 | a pass with outer quotes is never started over |
| `QuotingReaders.PieceReads` | gnulib-lib/quotearg.c:343-635 | each piece of C-family output is read back as the argument characters it stands for |
| `QuotingReaders.CFamilyRoundTrip` | gnulib-lib/quotearg.c:266-656 | C, c-maybe and escape output is read back as the argument, null bytes included, unless a character that a backslash changes is to be quoted on request; unquoted c-maybe output is the argument |
| `QuotingReaders.CFamilyRoundTripExactly` | gnulib-lib/quotearg.c:501-510 | every argument is read back if and only if no character with a C escape meaning (octal digits, a b f n r t v, x, u, U) is to be quoted on request, or outer quotes are elided |
| `QuotingReaders.OutputHasNoTrigraph` | gnulib-lib/quotearg.c:396-419 | with the split flag, C and c-maybe output contains none of the nine trigraphs of ISO C |
| `QuotingReaders.ShellRoundTrip` | gnulib-lib/quotearg.c:324-656 | shell and shell-always output of an argument without null bytes is read as one word equal to it |
| `QuotingLaws.ShellRoundTripExactly` | gnulib-lib/quotearg.c:384-459 | null bytes are kept, or dropped where elided, and the word reads as the rest, unless quotes are left out and what is left starts with a character that matters at the start of a word, which is judged before null bytes are dropped |
| `QuotingLaws.ElidedNullExposes` | gnulib-lib/quotearg.c:452-459 | the input for which it fails: a null byte and a number sign become a comment |
| `QuotingReaders.ElidedWordReads` | gnulib-lib/quotearg.c:452-476 | output without quotes has no character that is special to the shell |
| `QuotingReaders.HarmlessStaysUnquoted` | gnulib-lib/quotearg.c:489-511 | arguments of harmless characters are left alone by the styles that quote only where needed; the empty shell word becomes two quotes |
| `QuotingLaws.UnprintableIsEscaped` | gnulib-lib/quotearg.c:525-606 | no character below 0x20 or from 0x7F on that is unprintable, or has a letter escape, or is null, stands in C, c-maybe or escape output |
| `QuotingLaws.EscapesWritten` | gnulib-lib/quotearg.c:426-606 | in the escape style the seven letter escapes, the doubled backslash, and three octal digits for any other unprintable character |
| `QuotingLaws.PlainTextStays` | gnulib-lib/quotearg.c:622-634 | printable text without special characters stays as it is, between quotes in style C |
| `QuotingLaws.LiteralIsArgument` | gnulib-lib/quotearg.c:335-337 | literal output is the argument, without its null bytes if they are elided |
| `QuotingLaws.ShellQuotesExactly` | gnulib-lib/quotearg.c:324-487 | a shell word goes unquoted if and only if no character of it is special or requested, and it is not empty; otherwise it is quoted as by shell-always, where requests do not matter |
| `QuotingLaws.CMaybeQuotesExactly` | gnulib-lib/quotearg.c:268-655 | c-maybe leaves the argument alone if and only if no character needs an escape or is requested; otherwise it quotes as style C, where requests do not matter |
| `QuotingLaws.OuterQuotes` | gnulib-lib/quotearg.c:324-333 | with the flag that elides outer quotes, C and shell-always are c-maybe and shell; without it they always quote |
| `QuotingLaws.RequestsAreQuoted` | gnulib-lib/quotearg.c:622-634 | a requested character never stands in unquoted output, except for a backslash in c-maybe |
| `QuotingLaws.BackslashStaysUnquoted` | gnulib-lib/quotearg.c:433-437 | the exception: a requested backslash stays unquoted in c-maybe |
| `QuoteArg.SwitchC` | gnulib-lib/quotearg.c:359-450 | the switch under backslash escapes writes the piece of the reference output |
| `QuoteArg.SwitchPlain` | gnulib-lib/quotearg.c:452-487 | the switch for the literal and shell styles does the same |
| `QuoteArg.RunPass` | gnulib-lib/quotearg.c:343-647 | one pass stores the reference output, or gives up exactly when the outer quotes are needed after all |
| `QuoteArg.QuoteargBufferRestyled` | gnulib-lib/quotearg.c:228-656 | the length is independent of the buffer; a short buffer holds a prefix of the output even after a restart; nothing is written beyond its size |
| `QuoteArg.OutputHasNoNull` | gnulib-lib/quotearg.c:689-694 | the output has no null byte unless the argument has one, the style keeps it, and it is not elided |
| `QuoteArg.QuoteargAllocMem` | gnulib-lib/quotearg.c:689-716 | the size found by the first pass fits the second with the terminator |
| `QuoteArg.SlotVector.QuoteargNOptions` | gnulib-lib/quotearg.c:752-818 | the slot gets the string, stays as it is when the string fits and is replaced by one of exactly its size otherwise; other slots keep theirs and new ones are empty |

## Left out

- Multibyte locales, collating elements, `translate` and case folding in the regex code, and the buffers that hold
  converted input, with `extend_buffers`: the text is a sequence of bytes that is there at once.
- Anchors, word constraints and back-references, and with them `duplicate_node_closure`, the word transition table, the
  states for other contexts and `find_recover_state`, which has nothing to find without back-references.
- Match registers, `subexp_map`, `has_plural_match` and the `opt_subexp` mark that `parse_dup_op` sets; of the markers
  it is proved where they stand, not what the registers become.
- The tokenizer, bracket parsing and the reading of interval bounds; `ParseDupOp` starts when the bounds are known.
- Allocation failure, freeing and overflow of sizes.
- The storage of tree cells is one growing array; the C code takes them from chunks that it never moves.
- Bit sets (`bitset_t`, `quote_these_too`) are sets of bytes, so `set_char_quoting` and the word loops over them are not
  modelled.
- `stop` may not exceed the length of the text, which `re_match_2` leaves to its callers.
- Calling `getopt` again after it returned -1, callers that change `optind` during a run, diagnostics, and the `W;`
  option, which `NoWLong` excludes; the environment variable is part of the flag `posixly`.
- Option characters are non-negative; a signed `char` could also give negative codes.
- Locale, clocale and custom quotes and the multibyte branch of `quotearg_buffer_restyled`; `isprint` is any predicate.
- The static first slot of quotearg is an ordinary array of 256 characters, and old slot storage is not freed.
- Words of `memchr` have 64 bits; `AnyWidthTest` covers the test for other sizes.
- StateTable.Dfa.AcquireStateContext: no node has a constraint, so the entrance nodes are the nodes.
- Compiler.CompileAndSearch: asks for `GroupBound`, a sufficient condition on the expression; the exact one is `RoomFor`,
  a condition on its automaton, which `Search` asks for.
- Universal character names (`\u`, `\U`) in the C reader, which rejects them.
- Searching.Search: stops before the match registers are filled.
