# jsglr core in Dafny

A Dafny model of the core of jsglr, the scannerless generalized LR (SGLR)
parser of the Spoofax language workbench, and of the parts of its
successor JSGLR2 that choose and run a parser variant. The model covers:

- **The SGLR driver** (`SGLR.java`): the graph-structured stack (GSS) of
  frames and links, the parse loop over input characters, the actor, the
  reducer with its ambiguity and cost handling, lookahead checks, the
  shifter, line and column bookkeeping, and the bad-token error. The parser
  object is the class `SglrParser.Sglr`. Its stack graph is an arena of
  frame and link values indexed by integers (`SglrStack`). The shifter loop
  is specified by the function `SglrShifter.ShiftFrom`, with its invariants
  proved as lemmas.
- **The disambiguator** (`Disambiguator.java`): the filter pipeline run on
  the parse forest. It has the top-sort filter, the cycle check, the
  recursive tree filter with the reject check, and the ambiguity tournament
  (`filterAmbiguities` / `filterAmbiguityList`). It also has the pairwise
  rules: direct and indirect eagerness preferences, prefer/avoid counts,
  injection counts and the permissive-literal workaround. Last come the
  associativity and priority filters. The filters are pure functions over
  the datatype `Forests.Forest`; the loops of the source are methods proved
  to compute those functions. The switches live in the class
  `Disambiguation.Disambiguator`.
- **Incremental parsing** (`IncrementalSGLR.java`,
  `DamageRegionAnalyzer.java`): the textual diff between old and new input
  (damage start and end, the diff sanity check), the sanity checks on the
  old and repaired trees, and the collection of damaged tree nodes.
- **JSGLR2** (`ReducerSkipLayoutAndLexicalAndRejects.java`,
  `ReduceManagerElkhound.java`, `JSGLR2Variants.java`, `Production.java`):
  the three reducer cases that skip layout, lexical and reject nodes; the
  Elkhound reduce manager's choice between the deterministic LR shortcut
  and full GLR; the enumeration of valid parser variants and their names;
  and the production type codes.

Java integers are modelled as unbounded integers. Indices and counters in
this code never come near 2^31. Java's `/` is written out as truncating
division (`SglrInput.JavaDiv`). Unchecked Java exceptions thrown inside the
filters are explicit outcomes (`Forests.Eval`, `Forests.Failure`). This
includes the index errors, casts and null dereferences that the code as
written can raise.

## Model

| member | source | states |
|---|---|---|
| Disambiguation.Disambiguator.constructor | jsglr-gwt/src/org/spoofax/jsglr/client/Disambiguator.java:180-182 | a new disambiguator has the default switches |
| Disambiguation.Disambiguator.SetDefaultFilters | jsglr-gwt/src/org/spoofax/jsglr/client/Disambiguator.java:167-178 | afterwards every filter is on except cycle detection, the two counting heuristics and strict mode |
| Disambiguation.Disambiguator.SetHeuristicFilters | jsglr-gwt/src/org/spoofax/jsglr/client/Disambiguator.java:154-157 | sets the preference-count and injection-count switches to the argument and changes no other switch |
| Disambiguation.Disambiguator.SetFilterAny | jsglr-gwt/src/org/spoofax/jsglr/client/Disambiguator.java:65-67 | changes the any-filter switch and no other |
| Disambiguation.Disambiguator.SetFilterDirectPreference | jsglr-gwt/src/org/spoofax/jsglr/client/Disambiguator.java:69-71 | changes the direct-preference switch and no other |
| Disambiguation.Disambiguator.SetFilterInjectionCount | jsglr-gwt/src/org/spoofax/jsglr/client/Disambiguator.java:93-95 | changes the injection-count switch and no other |
| Disambiguation.Disambiguator.SetFilterPreferenceCount | jsglr-gwt/src/org/spoofax/jsglr/client/Disambiguator.java:101-103 | changes the preference-count switch and no other |
| Disambiguation.Disambiguator.SetFilterTopSort | jsglr-gwt/src/org/spoofax/jsglr/client/Disambiguator.java:109-111 | changes the top-sort switch and no other |
| Disambiguation.Disambiguator.SetFilterCycles | jsglr-gwt/src/org/spoofax/jsglr/client/Disambiguator.java:117-119 | changes the cycle switch and no other |
| Disambiguation.Disambiguator.SetFilterAssociativity | jsglr-gwt/src/org/spoofax/jsglr/client/Disambiguator.java:125-127 | changes the associativity switch and no other |
| Disambiguation.Disambiguator.SetFilterPriorities | jsglr-gwt/src/org/spoofax/jsglr/client/Disambiguator.java:133-135 | changes the priorities switch and no other |
| Disambiguation.Disambiguator.SetFilterStrict | jsglr-gwt/src/org/spoofax/jsglr/client/Disambiguator.java:146-148 | changes the strict switch and no other |
| Disambiguation.Disambiguator.SetFilterReject | jsglr-gwt/src/org/spoofax/jsglr/client/Disambiguator.java:159-161 | changes the reject switch and no other |
| Disambiguation.Disambiguator.Cfg | jsglr-gwt/src/org/spoofax/jsglr/client/Disambiguator.java:65-163 | the configuration the filters read carries the object's switches and the parser's recovery flag |
| Disambiguation.Disambiguator.ApplyFilters | jsglr-gwt/src/org/spoofax/jsglr/client/Disambiguator.java:184-213 | the outcome of the filter pipeline under the current switches; with any filtering on, a successful tree holds no reject node |
| Disambiguation.ApplyFiltersNoReject | jsglr-gwt/src/org/spoofax/jsglr/client/Disambiguator.java:184-213 | with any filtering on, a successful result holds no reject node, and with reject filtering in force a selected tree holding a reject node makes the whole pipeline fail |
| Disambiguation.ApplyFiltersRec | jsglr-gwt/src/org/spoofax/jsglr/client/Disambiguator.java:184-213 | top sort, then (only when any filtering is on) the cycle check and the tree filter from the root, failing at the first failure |
| Disambiguation.ApplyCycleDetectFilter | jsglr-gwt/src/org/spoofax/jsglr/client/Disambiguator.java:260-275 | the tree passes through unchanged exactly when cycle filtering is off, there are no ambiguities or the tree is a character node; otherwise the unimplemented cycle check fails |
| Disambiguation.ApplyTopSortFilterRec | jsglr-gwt/src/org/spoofax/jsglr/client/Disambiguator.java:285-298 | the top-sort filter as the recursive code performs it agrees with its definition |
| TopSort.ApplyTopSortFilterSpec | jsglr-gwt/src/org/spoofax/jsglr/client/Disambiguator.java:285-327 | a missing start symbol is reported exactly when no tree of the forest has the sort; otherwise the result is one such tree or an ambiguity over two or more such trees, all taken from the forest |
| TopSort.TopSortAlternativesSpec | jsglr-gwt/src/org/spoofax/jsglr/client/Disambiguator.java:329-341 | the collected trees are exactly the non-ambiguity members of the cluster, nested ambiguities flattened, whose production is a start production of the sort |
| TopSort.AddTopSortAlternatives | jsglr-gwt/src/org/spoofax/jsglr/client/Disambiguator.java:329-341 | appending to the result list adds exactly the collected trees, in left-to-right order |
| TopSort.InClusterSplit | jsglr-gwt/src/org/spoofax/jsglr/client/Disambiguator.java:329-341 | membership in a cluster splits into the prefix and the last alternative (directly or inside it) |
| Forests.NoRejectNodesIffNone | jsglr-gwt/src/org/spoofax/jsglr/client/Disambiguator.java:368-370 | a forest has no reject node exactly when it does not contain one |
| Disambiguation.FilterTreeRec | jsglr-gwt/src/org/spoofax/jsglr/client/Disambiguator.java:343-386 | the recursive tree filter as written agrees with its definition: ambiguities go to the tournament, nodes are rebuilt from filtered kids, character nodes pass |
| Disambiguation.FilterEachRec | jsglr-gwt/src/org/spoofax/jsglr/client/Disambiguator.java:388-421 | filtering a kid list maps the tree filter over it and stops at the first failure |
| Disambiguation.FilterTreeListRec | jsglr-gwt/src/org/spoofax/jsglr/client/Disambiguator.java:388-421 | the list overload: filter every kid, then, when any filter is switched on, apply the associativity/priority step to each filtered kid; with every filter off the filtered kids are returned as they are |
| Disambiguation.FilterAmbiguitiesRec | jsglr-gwt/src/org/spoofax/jsglr/client/Disambiguator.java:706-740 | the ambiguity filter as the code performs it agrees with its definition |
| Disambiguation.FilterTreeNoReject | jsglr-gwt/src/org/spoofax/jsglr/client/Disambiguator.java:343-386 | a successfully filtered tree holds no reject node, since every node is rebuilt as a plain node |
| Disambiguation.FilterEachNoReject | jsglr-gwt/src/org/spoofax/jsglr/client/Disambiguator.java:388-421 | a successfully filtered list holds no reject node and has the length of its input |
| Disambiguation.FilterAmbiguitiesNoReject | jsglr-gwt/src/org/spoofax/jsglr/client/Disambiguator.java:706-740 | the tree chosen by the tournament holds no reject node |
| Disambiguation.FilterTreeListNoReject | jsglr-gwt/src/org/spoofax/jsglr/client/Disambiguator.java:388-421 | the filtered kid list holds no reject node |
| Disambiguation.AssocEachNoReject | jsglr-gwt/src/org/spoofax/jsglr/client/Disambiguator.java:388-421 | the associativity/priority step over a list keeps it free of reject nodes |
| Disambiguation.AssocStepNoReject | jsglr-gwt/src/org/spoofax/jsglr/client/Disambiguator.java:369-386 | the associativity/priority step keeps a tree free of reject nodes |
| Disambiguation.ApplyAssocPrioNoReject | jsglr-gwt/src/org/spoofax/jsglr/client/Disambiguator.java:423-466 | the associativity/priority filter keeps a tree free of reject nodes |
| Disambiguation.CollapsedNoReject | jsglr-gwt/src/org/spoofax/jsglr/client/Disambiguator.java:657-687 | collapsing the survivors of reject-free alternatives gives a reject-free tree |
| Disambiguation.LeftAssocNoReject | jsglr-gwt/src/org/spoofax/jsglr/client/Disambiguator.java:646-691 | the left-associative filter keeps a tree free of reject nodes |
| Disambiguation.RightAssocNoReject | jsglr-gwt/src/org/spoofax/jsglr/client/Disambiguator.java:468-511 | the right-associative filter keeps a tree free of reject nodes |
| Disambiguation.FilterTreeFailsOnReject | jsglr-gwt/src/org/spoofax/jsglr/client/Disambiguator.java:363-371 | with reject filtering in force and no integrated recovery, a tree containing a reject node always fails to filter |
| Disambiguation.FilterEachFails | jsglr-gwt/src/org/spoofax/jsglr/client/Disambiguator.java:388-421 | a kid list with a reject node anywhere fails under the same conditions |
| Disambiguation.FilterEachFailPersists | jsglr-gwt/src/org/spoofax/jsglr/client/Disambiguator.java:388-421 | a failure on a prefix of the list is the failure of the whole list |
| Disambiguation.AssocEachFailPersists | jsglr-gwt/src/org/spoofax/jsglr/client/Disambiguator.java:388-421 | a failure of the associativity/priority step on a prefix is the failure of the whole list |
| Tournament.FilterAmbiguityListSurvivors | jsglr-gwt/src/org/spoofax/jsglr/client/Disambiguator.java:742-770 | the survivors are drawn from the list and the challenger; an element survives exactly when the challenger does not beat it; the challenger stays exactly when nothing beats it; an empty list gives exactly the challenger; the result is never empty |
| Tournament.FilterAmbiguityListThrows | jsglr-gwt/src/org/spoofax/jsglr/client/Disambiguator.java:742-770 | the pass fails exactly when some comparison with the challenger throws |
| Tournament.FilterAmbiguityListLoop | jsglr-gwt/src/org/spoofax/jsglr/client/Disambiguator.java:742-770 | the loop that removes losers and drops the challenger computes the pass |
| Tournament.ScanAmbiguitiesReturns | jsglr-gwt/src/org/spoofax/jsglr/client/Disambiguator.java:748-768 | a pass completes exactly when no comparison throws |
| Tournament.ScanAmbiguitiesKeeps | jsglr-gwt/src/org/spoofax/jsglr/client/Disambiguator.java:748-768 | a completed pass keeps exactly the elements the challenger does not beat, never the challenger, each at most as often as it occurred |
| Tournament.ScanStepKeeps | jsglr-gwt/src/org/spoofax/jsglr/client/Disambiguator.java:753-762 | scanning one more element keeps the pass property: the element is kept exactly when the challenger does not beat it, and the challenger is dropped when the element beats it |
| Tournament.ScanThrowPersists | jsglr-gwt/src/org/spoofax/jsglr/client/Disambiguator.java:748-768 | a pass that throws on a prefix throws the same on the whole list |
| Tournament.RemoveFirst | jsglr-gwt/src/org/spoofax/jsglr/client/Disambiguator.java:727 | removing an alternative from the survivor list removes exactly one occurrence of it |
| Tournament.TournamentRoundsSurvivors | jsglr-gwt/src/org/spoofax/jsglr/client/Disambiguator.java:721-731 | the survivor list is never emptied, holds only alternatives of the cluster, and after an alternative's round holds it at most once |
| Tournament.RoundStepSurvivors | jsglr-gwt/src/org/spoofax/jsglr/client/Disambiguator.java:726-729 | one more round, of an alternative still among the survivors, keeps the survivors non-empty and drawn from the cluster and leaves that alternative at most once |
| Tournament.TournamentDistinctSurvivors | jsglr-gwt/src/org/spoofax/jsglr/client/Disambiguator.java:706-740 | the survivors of a cluster are pairwise distinct, so duplicates collapse to one |
| Tournament.TournamentThrowPersists | jsglr-gwt/src/org/spoofax/jsglr/client/Disambiguator.java:725-730 | a round that throws ends the tournament with that exception |
| Tournament.ResolveClusterShape | jsglr-gwt/src/org/spoofax/jsglr/client/Disambiguator.java:733-739 | no surviving alternative is a filter failure and happens only for an empty cluster; a lone alternative is returned unwrapped; otherwise one survivor or an ambiguity over two or more distinct survivors |
| Tournament.ResolveClusterLoop | jsglr-gwt/src/org/spoofax/jsglr/client/Disambiguator.java:706-740 | the loops of filterAmbiguities compute the resolution of the cluster |
| Tournament.OnceMeansDistinct | jsglr-gwt/src/org/spoofax/jsglr/client/Disambiguator.java:706-740 | an element occurring at most once is not repeated at another position |
| Preferences.FilterEqualLeftWins | jsglr-gwt/src/org/spoofax/jsglr/client/Disambiguator.java:779-781 | structurally equal alternatives always give left wins |
| Preferences.FilterWithoutRules | jsglr-gwt/src/org/spoofax/jsglr/client/Disambiguator.java:772-811 | with the optional rules switched off only equality and the permissive-literal workaround decide, and no comparison throws |
| Preferences.DirectPrefersVerdicts | jsglr-gwt/src/org/spoofax/jsglr/client/Disambiguator.java:1005-1019 | left wins exactly when the left side is more eager; right wins exactly when the right side is and the left is not |
| Preferences.IsMoreEager | jsglr-gwt/src/org/spoofax/jsglr/client/Disambiguator.java:1082-1093 | the eagerness test returns exactly when both sides are production nodes (a character node fails the cast) |
| Preferences.IndirectPrefersDescends | jsglr-gwt/src/org/spoofax/jsglr/client/Disambiguator.java:970-1003 | two nodes of one production that differ in exactly one argument get the verdict of that argument pair |
| Preferences.ComputeDistinctArguments | jsglr-gwt/src/org/spoofax/jsglr/client/Disambiguator.java:1095-1103 | the count returns exactly when the right list is at least as long, is at most the left length, and is zero exactly when the left list is a prefix of the right |
| Preferences.CountDistinctArguments | jsglr-gwt/src/org/spoofax/jsglr/client/Disambiguator.java:1095-1103 | the counting loop computes the count, including the index error on a shorter right list |
| Preferences.DistinctPrefix | jsglr-gwt/src/org/spoofax/jsglr/client/Disambiguator.java:1095-1103 | the number of differing positions below n is at most n and zero exactly when the prefixes agree |
| Preferences.DistinctPrefixSingle | jsglr-gwt/src/org/spoofax/jsglr/client/Disambiguator.java:984-990 | lists differing at exactly one position have one distinct argument |
| Preferences.FirstDifference | jsglr-gwt/src/org/spoofax/jsglr/client/Disambiguator.java:984-996 | the first position at which two argument lists differ |
| Preferences.PreferCountAntisymmetric | jsglr-gwt/src/org/spoofax/jsglr/client/Disambiguator.java:876-913 | left wins on (a, b) exactly when right wins on (b, a); draws are symmetric; no prefers or avoids in the table, or equal counts, give a draw |
| Preferences.PreferCountLeftWins | jsglr-gwt/src/org/spoofax/jsglr/client/Disambiguator.java:884-913 | left wins exactly when it has more prefers and no more avoids, or as many prefers and fewer avoids |
| Preferences.CountsAdditive | jsglr-gwt/src/org/spoofax/jsglr/client/Disambiguator.java:916-968 | prefer and avoid counts over a list are additive over concatenation |
| Preferences.NoPreferNodesCountsZero | jsglr-gwt/src/org/spoofax/jsglr/client/Disambiguator.java:916-941 | a tree without prefer labels counts no prefers |
| Preferences.NoPreferNodesCountsZeroList | jsglr-gwt/src/org/spoofax/jsglr/client/Disambiguator.java:932-941 | a list of such trees counts no prefers |
| Preferences.InjectionCountRule | jsglr-gwt/src/org/spoofax/jsglr/client/Disambiguator.java:828-850 | fewer injections win, a draw exactly when the counts are equal, and swapping the sides swaps the verdict |
| Preferences.InjectionCountShape | jsglr-gwt/src/org/spoofax/jsglr/client/Disambiguator.java:852-874 | character nodes count no injection, an injection node one more than its kids, an ambiguity as its first alternative |
| Preferences.PermissiveLiteralsOneWay | jsglr-gwt/src/org/spoofax/jsglr/client/Disambiguator.java:813-826 | the workaround never lets the right side win and never fires in both directions |
| Preferences.JumpOverInjectionsResult | jsglr-gwt/src/org/spoofax/jsglr/client/Disambiguator.java:596-620 | skipping injections returns the node itself or a non-node at the end of a first-kid chain, never an inner node of the chain |
| Preferences.JumpOverInjectionsStops | jsglr-gwt/src/org/spoofax/jsglr/client/Disambiguator.java:596-620 | a non-injection node or a non-node is returned as it is |
| Preferences.JumpOverInjectionsLoop | jsglr-gwt/src/org/spoofax/jsglr/client/Disambiguator.java:596-620 | the loop over injections computes the walk, including the index error on an injection without kids |
| Preferences.ChainExtends | jsglr-gwt/src/org/spoofax/jsglr/client/Disambiguator.java:596-620 | the first kid of a node on a first-kid chain lies one step further along it |
| Preferences.JumpOverInjectionsModuloEagerness | jsglr-gwt/src/org/spoofax/jsglr/client/Disambiguator.java:1035-1065 | an ambiguity node has no label and fails; a character node is returned as it is |
| Preferences.JumpModuloEagernessStopsAtNonInjection | jsglr-gwt/src/org/spoofax/jsglr/client/Disambiguator.java:1035-1065 | a plain node returned by the walk is not an injection |
| AssocPriority.HasGreaterPriorityLoop | jsglr-gwt/src/org/spoofax/jsglr/client/Disambiguator.java:629-640 | true exactly when some priority edge of l0 has l1 on its right and applies at arg (its argument is -1 or arg) |
| AssocPriority.SurvivorsSpec | jsglr-gwt/src/org/spoofax/jsglr/client/Disambiguator.java:657-687 | the filtering loop returns exactly when every alternative can be cast; its result holds exactly the alternatives that are not nodes of the parent's label |
| AssocPriority.SurvivorsLoop | jsglr-gwt/src/org/spoofax/jsglr/client/Disambiguator.java:657-687 | the loop collecting alternatives computes the survivors |
| AssocPriority.SurvivorsThrowPersists | jsglr-gwt/src/org/spoofax/jsglr/client/Disambiguator.java:657-687 | a cast failure on a prefix is the failure of the whole loop |
| AssocPriority.CollapseSurvivors | jsglr-gwt/src/org/spoofax/jsglr/client/Disambiguator.java:676-683 | one survivor is used as it is, several become an ambiguity over survivors |
| AssocPriority.LeftAssocFilterSpec | jsglr-gwt/src/org/spoofax/jsglr/client/Disambiguator.java:646-691 | fails exactly when the last kid is a node of the same label, or an ambiguity none of whose alternatives survives; a changed result is an ambiguity of the kept kids with the collapsed survivors last |
| AssocPriority.RightAssocFilterSpec | jsglr-gwt/src/org/spoofax/jsglr/client/Disambiguator.java:468-511 | fails exactly when the first kid is a node of the same label, or (with two or more kids) an ambiguity none of whose alternatives survives; a changed result is a node of the same label over the sub-list with the survivors last |
| AssocPriority.PrioritySurvivorsNeedSelfPriority | jsglr-gwt/src/org/spoofax/jsglr/client/Disambiguator.java:536-546 | with no priority of the parent's label over itself, nothing survives (the check looks up the parent's own label) |
| AssocPriority.PrioritySurvivorsLoop | jsglr-gwt/src/org/spoofax/jsglr/client/Disambiguator.java:535-546 | the loop over an ambiguous kid's alternatives computes the survivors |
| AssocPriority.PrioritySurvivorsThrowPersists | jsglr-gwt/src/org/spoofax/jsglr/client/Disambiguator.java:535-546 | an exception on a prefix is the exception of the whole loop |
| AssocPriority.PriorityFromShape | jsglr-gwt/src/org/spoofax/jsglr/client/Disambiguator.java:513-577 | a successful priority filter returns the node itself or its rebuilt plain copy |
| AssocPriority.PriorityFromPlain | jsglr-gwt/src/org/spoofax/jsglr/client/Disambiguator.java:513-577 | for kids without ambiguities: the rebuilt node is returned exactly when no kid has a priority conflict, and any failure is a filter failure |
| AssocPriority.PriorityFilterPlain | jsglr-gwt/src/org/spoofax/jsglr/client/Disambiguator.java:513-577 | the same for the whole node |
| AssocPriority.PriorityFilterLoop | jsglr-gwt/src/org/spoofax/jsglr/client/Disambiguator.java:513-577 | the loop over the kids computes the priority filter |
| AssocPriority.ApplyAssocPrioSpec | jsglr-gwt/src/org/spoofax/jsglr/client/Disambiguator.java:423-466 | non-nodes pass unchanged; a successful node keeps its label; an ambiguity can only come from left associativity; with no associativity or priority for the label the node passes unchanged |
| SglrInput.NextPositionSpec | org.spoofax.jsglr/src/org/spoofax/jsglr/client/SGLR.java:834-854 | every read counts a token; a newline moves to the next line at column 0; a tab moves strictly right to the next multiple of 4; end of input moves nothing; anything else moves one column |
| SglrInput.PositionAfterSpec | org.spoofax.jsglr/src/org/spoofax/jsglr/client/SGLR.java:834-854 | after any reads the token count has grown by the number of reads and the line by the number of newlines, and the column stays non-negative |
| SglrInput.LookaheadPermitsSpec | org.spoofax.jsglr/src/org/spoofax/jsglr/client/SGLR.java:533-554 | a lookahead reduction is forbidden exactly when some following character lies in the class of its own position |
| SglrParser.PushbackInput.constructor | org.spoofax.jsglr/src/org/spoofax/jsglr/client/SGLR.java:342 | a new reader is positioned at the start of the text |
| SglrParser.PushbackInput.Reset | org.spoofax.jsglr/src/org/spoofax/jsglr/client/SGLR.java:342 | resets the reader to the start of a new text |
| SglrParser.PushbackInput.Read | org.spoofax.jsglr/src/org/spoofax/jsglr/client/SGLR.java:826 | returns the next character and advances, or -1 at the end without moving |
| SglrParser.PushbackInput.Unread | org.spoofax.jsglr/src/org/spoofax/jsglr/client/SGLR.java:551 | moves back by one character |
| SglrParser.Sglr.constructor | org.spoofax.jsglr/src/org/spoofax/jsglr/client/SGLR.java:333-352 | a new parser is in a consistent state over the given table |
| SglrParser.Sglr.InitParseVariables | org.spoofax.jsglr/src/org/spoofax/jsglr/client/SGLR.java:333-352 | empties the queues, creates the start frame as the only active stack, resets counters to token 0, line 1, column 0, clears the accepting stack and errors, and reads the new input from its start |
| SglrParser.Sglr.InitStacks | org.spoofax.jsglr/src/org/spoofax/jsglr/client/SGLR.java:334-338 | empties the three queues and makes a new frame in the initial state both the start frame and the only active stack, with the parser invariant holding |
| SglrParser.Sglr.UpdateLineAndColumnInfo | org.spoofax.jsglr/src/org/spoofax/jsglr/client/SGLR.java:834-854 | the position moves exactly as NextPosition says |
| SglrParser.Sglr.GetNextToken | org.spoofax.jsglr/src/org/spoofax/jsglr/client/SGLR.java:821-832 | returns the next character, or EOF (256) at the end of the input, and updates the position for it (for -1 at the end) |
| SglrParser.Sglr.DoCheckLookahead | org.spoofax.jsglr/src/org/spoofax/jsglr/client/SGLR.java:533-554 | consumes no input, and permits the reduction exactly as LookaheadPermits says |
| SglrParser.Sglr.FindStackIn | org.spoofax.jsglr/src/org/spoofax/jsglr/client/SGLR.java:794-818 | the first frame of the list with the requested state, or none |
| SglrStack.FindStackSpec | org.spoofax.jsglr/src/org/spoofax/jsglr/client/SGLR.java:794-818 | none exactly when no frame of the list has the state; otherwise the first frame that has it |
| SglrStack.FindStack | org.spoofax.jsglr/src/org/spoofax/jsglr/client/SGLR.java:794-818 | a found frame is a frame of the stack graph |
| SglrStack.FindDirectLinkInSpec | org.spoofax.jsglr/src/org/spoofax/jsglr/client/SGLR.java:642 | no link is found exactly when none of the links leads to the frame; a found link is one of them and leads to it |
| SglrStack.FindDirectLinkSpec | org.spoofax.jsglr/src/org/spoofax/jsglr/client/SGLR.java:642 | a frame's direct link to another is found exactly when it has one |
| SglrStack.FindDirectLinkIn | org.spoofax.jsglr/src/org/spoofax/jsglr/client/SGLR.java:642 | a found link leads to the requested frame |
| SglrStack.FindDirectLink | org.spoofax.jsglr/src/org/spoofax/jsglr/client/SGLR.java:642 | a found link leads to the requested frame |
| SglrStack.ExistingLinkUpdateSpec | org.spoofax.jsglr/src/org/spoofax/jsglr/client/SGLR.java:642-660 | a reject production rejects the link; zero costs on both sides or a rejected link add an ambiguity; a strictly lower cost replaces the tree and cost and re-runs the actor; an equal cost replaces only the tree; a higher cost changes nothing |
| SglrStack.NewStackForSpec | org.spoofax.jsglr/src/org/spoofax/jsglr/client/SGLR.java:690-711 | a new frame with the goto state and one new link to the origin, rejected exactly for a reject production; nothing existing changes |
| SglrStack.NewLinkForSpec | org.spoofax.jsglr/src/org/spoofax/jsglr/client/SGLR.java:662-671 | a new link from the existing frame to the origin, carrying the cost and rejected exactly for a reject production |
| SglrStack.NewFrameOk | org.spoofax.jsglr/src/org/spoofax/jsglr/client/SGLR.java:775-780 | a new frame is appended, without links, and the graph stays well formed |
| SglrStack.AddLinkOk | org.spoofax.jsglr/src/org/spoofax/jsglr/client/SGLR.java:666 | adding a link appends it to the link table and to the frame's links; the graph stays well formed |
| SglrStack.SetLinkOk | org.spoofax.jsglr/src/org/spoofax/jsglr/client/SGLR.java:650-659 | replacing a link's fields keeps the graph well formed |
| SglrStack.ExtendsTransitive | org.spoofax.jsglr/src/org/spoofax/jsglr/client/SGLR.java:624-680 | growing the stack graph is transitive |
| SglrStack.AllPathsSpec | org.spoofax.jsglr/src/org/spoofax/jsglr/client/SGLR.java:582 | the paths found from a frame are exactly the chains of links of the production's arity |
| SglrStack.PathsViaSpec | org.spoofax.jsglr/src/org/spoofax/jsglr/client/SGLR.java:582 | the paths through a list of links are exactly the chains of the arity starting with one of them |
| SglrStack.AllPathsIn | org.spoofax.jsglr/src/org/spoofax/jsglr/client/SGLR.java:582 | every path found lies inside the stack graph |
| SglrStack.ChainIn | org.spoofax.jsglr/src/org/spoofax/jsglr/client/SGLR.java:582 | a chain of links lies inside the stack graph |
| SglrStack.PathsThrough | org.spoofax.jsglr/src/org/spoofax/jsglr/client/SGLR.java:600 | the limited paths are exactly the paths that contain the new link |
| SglrStack.PathKids | org.spoofax.jsglr/src/org/spoofax/jsglr/client/SGLR.java:610 | one parse node per link of the path |
| SglrStack.PrependAll | org.spoofax.jsglr/src/org/spoofax/jsglr/client/SGLR.java:582 | every path gets the link in front |
| SglrStack.DistinctBelowBound | org.spoofax.jsglr/src/org/spoofax/jsglr/client/SGLR.java:794-818 | active frames with distinct states number at most the number of states |
| SglrStack.DistinctIntsBound | org.spoofax.jsglr/src/org/spoofax/jsglr/client/SGLR.java:794-818 | distinct integers below n number at most n |
| SglrParser.CalcRecoverCount | org.spoofax.jsglr/src/org/spoofax/jsglr/client/SGLR.java:764-766 | the cost of a reduction is the path's cost plus 1 exactly for a recovery production |
| SglrParser.Sglr.AddNewStack | org.spoofax.jsglr/src/org/spoofax/jsglr/client/SGLR.java:690-711 | a new frame with one link to the origin goes in front of both the active stacks and the delayed queue; the reject count grows by one exactly for a reject production |
| SglrParser.Sglr.AddNewRecoverStack | org.spoofax.jsglr/src/org/spoofax/jsglr/client/SGLR.java:716-725 | only in fine-grained mode and for a non-reject production, a new frame goes in front of the recovery stacks; otherwise nothing changes |
| SglrParser.Sglr.Reducer | org.spoofax.jsglr/src/org/spoofax/jsglr/client/SGLR.java:624-680 | counts one reduction; with no stack in the goto state a non-recovery production makes a new stack; with an existing direct link the link is updated as ExistingLinkUpdate says (re-actoring from the updated graph when the new derivation is cheaper) and a recovery production changes nothing; with an existing stack but no direct link a new link from that stack to st0 carries the derivation, its length and its recovery cost, is rejected and counted for a reject production, and the re-actoring that follows starts from exactly that graph and keeps the link, its target and its rejection |
| SglrParser.Sglr.ReduceOntoStack | org.spoofax.jsglr/src/org/spoofax/jsglr/client/SGLR.java:638-673 | the case of an existing stack st1 in the goto state: the direct link to st0 is updated as ExistingLinkUpdate says (in place, or followed by re-actoring from the updated graph); without a direct link a recovery production adds a recover stack, and any other production adds the link st1 to st0 carrying the derivation, its length and its recovery cost, rejected with the reject count raised for a reject production, after which re-actoring starts from that graph and keeps the link in st1, its target and its rejection |
| SglrParser.Sglr.UpdateLink | org.spoofax.jsglr/src/org/spoofax/jsglr/client/SGLR.java:647-659 | the existing link becomes the link ExistingLinkUpdate computes; when that asks for no re-actoring nothing else changes, otherwise re-actoring starts from the updated graph and keeps every link's target and rejection |
| SglrParser.Sglr.AddLinkOnto | org.spoofax.jsglr/src/org/spoofax/jsglr/client/SGLR.java:665-671 | adds the link st1 to st0 with the derivation, its length and its recovery cost, rejected and counted for a reject production; the re-actoring that follows starts from that graph and keeps the new link in st1, its target and its rejection |
| SglrParser.Sglr.ReduceAllPaths | org.spoofax.jsglr/src/org/spoofax/jsglr/client/SGLR.java:606-621 | one reduction per path at least, and the state only grows |
| SglrParser.Sglr.DoReductions | org.spoofax.jsglr/src/org/spoofax/jsglr/client/SGLR.java:574-588 | a recovery production outside fine-grained mode changes nothing; otherwise the state only grows |
| SglrParser.Sglr.DoLimitedReductions | org.spoofax.jsglr/src/org/spoofax/jsglr/client/SGLR.java:594-604 | the same for the paths through a new link |
| SglrParser.Sglr.ActorOnActiveStacksOverNewLink | org.spoofax.jsglr/src/org/spoofax/jsglr/client/SGLR.java:727-762 | re-actoring only grows the state and does nothing once the nesting bound is used up |
| SglrParser.Sglr.RedoReductionsOverNewLink | org.spoofax.jsglr/src/org/spoofax/jsglr/client/SGLR.java:743-758 | redoing the reductions of one applicable action over the new link keeps the invariant and only grows the state |
| SglrParser.Sglr.Actor | org.spoofax.jsglr/src/org/spoofax/jsglr/client/SGLR.java:476-521 | queues exactly the shifts of the frame's state's actions that accept the token, and sets the accepting stack only to this frame |
| SglrParser.Sglr.ActOnItems | org.spoofax.jsglr/src/org/spoofax/jsglr/client/SGLR.java:483-516 | queues exactly the shift items of one action, in order |
| SglrParser.Sglr.ActOnItem | org.spoofax.jsglr/src/org/spoofax/jsglr/client/SGLR.java:484-515 | a shift item queues exactly one shift pair of the frame and the target state and any other item none; reductions only grow the state; an accept sets the accepting stack only to this frame |
| SglrParser.ItemShiftsSpec | org.spoofax.jsglr/src/org/spoofax/jsglr/client/SGLR.java:484-492 | a queued shift is exactly a shift item of the action, from this frame |
| SglrParser.ActionShiftsSpec | org.spoofax.jsglr/src/org/spoofax/jsglr/client/SGLR.java:481-518 | a queued shift is exactly a shift item of some action that accepts the token |
| SglrParser.Sglr.PickStackNodeFromActivesOrForActor | org.spoofax.jsglr/src/org/spoofax/jsglr/client/SGLR.java:460-474 | takes the first active stack when there is one, otherwise the head of the actor queue |
| SglrParser.Sglr.FillForActorWithDelayedFrames | org.spoofax.jsglr/src/org/spoofax/jsglr/client/SGLR.java:450-458 | the delayed queue becomes the actor queue and the delayed queue is left empty |
| SglrParser.Sglr.ParseCharacter | org.spoofax.jsglr/src/org/spoofax/jsglr/client/SGLR.java:427-448 | afterwards the actor and delayed queues are empty, no input is consumed and the active stacks only grow |
| SglrParser.Sglr.ActOnNextFrame | org.spoofax.jsglr/src/org/spoofax/jsglr/client/SGLR.java:438-446 | one round keeps the invariant, consumes no input, only grows the stack, keeps the active stacks within the number of states, strictly lowers the remaining work, and leaves the delayed queue empty once both queues have run dry; a picked frame whose links are all rejected is skipped, leaving the stack graph, the active stacks, the shift queue, the accepting stack and the counters unchanged |
| SglrShifter.ShifterSpec | org.spoofax.jsglr/src/org/spoofax/jsglr/client/SGLR.java:393-418 | every live pending shift has exactly one new active frame with its target state, linked to its source; every new frame comes from a live shift; states are not duplicated; old frames are untouched |
| SglrParser.Sglr.Shifter | org.spoofax.jsglr/src/org/spoofax/jsglr/client/SGLR.java:393-418 | empties the shift queue and leaves the stack graph and active stacks ShiftFrom computes |
| SglrParser.Sglr.ShiftOne | org.spoofax.jsglr/src/org/spoofax/jsglr/client/SGLR.java:402-415 | one shift leaves exactly the stack graph and frontier of one ShiftStep |
| SglrShifter.ShiftStepShape | org.spoofax.jsglr/src/org/spoofax/jsglr/client/SGLR.java:401-415 | a rejected source is skipped; otherwise a new frame is put in front or the existing frame with the state gets the link |
| SglrShifter.ShiftStepFrontier | org.spoofax.jsglr/src/org/spoofax/jsglr/client/SGLR.java:399-416 | one shift keeps the new active frames distinct in state and leaves old frames untouched |
| SglrShifter.ShiftStepCovers | org.spoofax.jsglr/src/org/spoofax/jsglr/client/SGLR.java:399-416 | after one live shift its target state is active and linked to its source |
| SglrShifter.ShiftStepCovered | org.spoofax.jsglr/src/org/spoofax/jsglr/client/SGLR.java:402-415 | a live shift leaves a frontier frame in its target state with a link to the frame it shifts from, made new when the frontier had none in that state |
| SglrShifter.ShiftFromFrontier | org.spoofax.jsglr/src/org/spoofax/jsglr/client/SGLR.java:393-418 | the whole loop keeps the new active frames distinct and old frames untouched |
| SglrShifter.ShiftFromCovers | org.spoofax.jsglr/src/org/spoofax/jsglr/client/SGLR.java:393-418 | after the loop every live shift is covered |
| SglrShifter.ShiftFromExplains | org.spoofax.jsglr/src/org/spoofax/jsglr/client/SGLR.java:393-418 | after the loop every new active frame is explained by a live shift |
| SglrShifter.FrontierNewFrame | org.spoofax.jsglr/src/org/spoofax/jsglr/client/SGLR.java:404-408 | a new frame keeps the frontier invariant |
| SglrShifter.FrontierJoin | org.spoofax.jsglr/src/org/spoofax/jsglr/client/SGLR.java:409 | a link to an existing frame keeps the frontier invariant |
| SglrShifter.ShiftStepOk | org.spoofax.jsglr/src/org/spoofax/jsglr/client/SGLR.java:399-416 | one shift keeps the graph well formed and only adds |
| SglrShifter.RejectedKept | org.spoofax.jsglr/src/org/spoofax/jsglr/client/SGLR.java:403 | whether an old frame is fully rejected does not change while shifting |
| SglrShifter.CoveredOnce | org.spoofax.jsglr/src/org/spoofax/jsglr/client/SGLR.java:393-418 | a covered shift has exactly one active frame with its state |
| SglrShifter.HasLinkToKept | org.spoofax.jsglr/src/org/spoofax/jsglr/client/SGLR.java:393-418 | links are never removed by shifting |
| SglrShifter.OnlyAddsTransitive | org.spoofax.jsglr/src/org/spoofax/jsglr/client/SGLR.java:393-418 | only-adding is transitive |
| SglrShifter.ExplainsCombine | org.spoofax.jsglr/src/org/spoofax/jsglr/client/SGLR.java:393-418 | explanations of the first shift and of the rest combine |
| SglrParser.Sglr.DoParseStep | org.spoofax.jsglr/src/org/spoofax/jsglr/client/SGLR.java:328-331 | afterwards all work queues are empty and no input is consumed |
| SglrParser.ExpectedFromSpec | org.spoofax.jsglr/src/org/spoofax/jsglr/client/SGLR.java:360-382 | the expected characters follow singular shift actions from state to state |
| SglrParser.BadTokenErrorSpec | org.spoofax.jsglr/src/org/spoofax/jsglr/client/SGLR.java:354-391 | the error reports the token, offset, line and column; it lists expected characters exactly when one stack is active with a singular one-item action that yields some |
| SglrParser.Sglr.CreateBadTokenException | org.spoofax.jsglr/src/org/spoofax/jsglr/client/SGLR.java:354-391 | the loop builds the error BadTokenError describes |
| SglrParser.Sglr.ParseCharacters | org.spoofax.jsglr/src/org/spoofax/jsglr/client/SGLR.java:283-287 | the loop stops at the end of the input or when no stack is left |
| SglrParser.Sglr.Parse | org.spoofax.jsglr/src/org/spoofax/jsglr/client/SGLR.java:278-321 | fails exactly when no stack accepted, reporting the bad token once collected and once more on the way out; otherwise returns the tree of the accepting stack's link to the start frame, or reports a missing link |
| SglrParser.OnlyReducedTransitive | org.spoofax.jsglr/src/org/spoofax/jsglr/client/SGLR.java:574-680 | the growth relation of reductions is transitive |
| SglrParser.PathStaysIn | org.spoofax.jsglr/src/org/spoofax/jsglr/client/SGLR.java:606-621 | paths inside the graph stay inside it as it grows |
| SglrParser.InvExtends | org.spoofax.jsglr/src/org/spoofax/jsglr/client/SGLR.java:624-680 | the parser invariant survives growth of the stack graph |
| SglrParser.InvInit | org.spoofax.jsglr/src/org/spoofax/jsglr/client/SGLR.java:333-352 | the state after initialisation satisfies the parser invariant |
| SglrParser.InvNewStack | org.spoofax.jsglr/src/org/spoofax/jsglr/client/SGLR.java:690-725 | a new stack in front of the active (or recovery) stacks keeps the parser invariant |
| SglrParser.InvShifted | org.spoofax.jsglr/src/org/spoofax/jsglr/client/SGLR.java:393-418 | the shifter keeps the parser invariant |
| SglrParser.GotoOk | org.spoofax.jsglr/src/org/spoofax/jsglr/client/SGLR.java:612 | the goto of a well-formed table is a state of the table |
| SglrParser.ActionOk | org.spoofax.jsglr/src/org/spoofax/jsglr/client/SGLR.java:482 | every action of a well-formed table shifts to table states and reduces productions with gotos |
| SglrParser.SingularOk | org.spoofax.jsglr/src/org/spoofax/jsglr/client/SGLR.java:378 | a singular action of a well-formed table shifts to table states |
| Incremental.RangeOverlapSpec | jsglr-gwt/src/org/spoofax/jsglr/client/incremental/IncrementalSGLR.java:174-176 | overlap is symmetric and, for non-empty ranges, means a shared offset; an empty range can still overlap |
| Incremental.FirstDifferenceFrom | jsglr-gwt/src/org/spoofax/jsglr/client/incremental/IncrementalSGLR.java:187-193 | the first differing index below the limit, or limit - 1 when the prefixes agree |
| Incremental.DamageStart | jsglr-gwt/src/org/spoofax/jsglr/client/incremental/IncrementalSGLR.java:187-193 | the first index below the shorter length where the inputs differ, or the shorter length minus 1 (as written, -1 for an empty input) |
| Incremental.GetDamageStart | jsglr-gwt/src/org/spoofax/jsglr/client/incremental/IncrementalSGLR.java:187-193 | the scan with early return computes DamageStart |
| Incremental.DamageStartCorrected | jsglr-gwt/src/org/spoofax/jsglr/client/incremental/IncrementalSGLR.java:187-193 | the corrected start lies within both inputs and the inputs agree before it |
| Incremental.GetDamageEnd | jsglr-gwt/src/org/spoofax/jsglr/client/incremental/IncrementalSGLR.java:195-202 | the backward scan with early return computes DamageEnd, including the index error |
| Incremental.DamageEndFromSpec | jsglr-gwt/src/org/spoofax/jsglr/client/incremental/IncrementalSGLR.java:195-202 | from a start within both inputs the backward scan raises no error, ends between the limit and the old length, the inputs agree after the end, and differ at it unless it is the limit |
| Incremental.DamageEndBounds | jsglr-gwt/src/org/spoofax/jsglr/client/incremental/IncrementalSGLR.java:195-202 | the scan from the end of the old input stays within both inputs and the inputs agree after it |
| Incremental.SanityCheckDiff | jsglr-gwt/src/org/spoofax/jsglr/client/incremental/IncrementalSGLR.java:126-135 | the diff is accepted exactly when the damaged range is not inverted in either input; otherwise an invalid-diff error |
| Incremental.DiffReconstructs | jsglr-gwt/src/org/spoofax/jsglr/client/incremental/IncrementalSGLR.java:126-135 | for every pair of inputs, with the corrected start, the scan raises no error, the diff is accepted, and old prefix + new damaged text + old suffix is the new input |
| Incremental.ReconstructsFromMatches | jsglr-gwt/src/org/spoofax/jsglr/client/incremental/IncrementalSGLR.java:132-134 | a damage region whose outside agrees in both inputs reconstructs the new input |
| Incremental.UnchangedIffEqual | jsglr-gwt/src/org/spoofax/jsglr/client/incremental/IncrementalSGLR.java:81-84 | an unchanged size and an empty damaged range mean exactly that the inputs are equal |
| Incremental.DiffAsWrittenFailsOnEmpty | jsglr-gwt/src/org/spoofax/jsglr/client/incremental/IncrementalSGLR.java:187-202 | as written, an empty old or new input makes the backward scan read index -1 |
| Incremental.DiffAsWrittenInsertIntoEmpty | jsglr-gwt/src/org/spoofax/jsglr/client/incremental/IncrementalSGLR.java:187-202 | inserting "a" into an empty document: start -1, and the scan raises an index error; the corrected start gives end -1 |
| Incremental.CorrectionAgreesOnNonEmpty | jsglr-gwt/src/org/spoofax/jsglr/client/incremental/IncrementalSGLR.java:187-193 | on non-empty inputs the corrected start is the start as written |
| Incremental.IncrementalStartSpec | jsglr-gwt/src/org/spoofax/jsglr/client/incremental/IncrementalSGLR.java:67-84 | as the code is written, the first phase fails exactly when the old tree is missing or either input is empty, an empty input with the index error; with both inputs non-empty it returns the old tree exactly when they are equal, and a damage region it yields reconstructs the new input |
| Incremental.IncrementalStartCorrectedSpec | jsglr-gwt/src/org/spoofax/jsglr/client/incremental/IncrementalSGLR.java:67-84 | with the corrected damage start the first phase fails exactly when the old tree is missing, returns the old tree exactly when the inputs are equal, and otherwise yields a damage region that reconstructs the new input |
| Incremental.IncrementalStartAsWrittenInsertIntoEmpty | jsglr-gwt/src/org/spoofax/jsglr/client/incremental/IncrementalSGLR.java:76-78 | inserting "a" into an empty document fails with the index error as written and yields the damage region (0, -1, 1) once corrected |
| Incremental.IncrementalParser.constructor | jsglr-gwt/src/org/spoofax/jsglr/client/incremental/IncrementalSGLR.java:48-54 | keeps the incremental sorts and starts with no rebuilt nodes |
| Incremental.IncrementalParser.ParseIncrementalStart | jsglr-gwt/src/org/spoofax/jsglr/client/incremental/IncrementalSGLR.java:67-84 | computes the first phase as written, an empty input failing with the index error, resetting the rebuilt-node list once the old tree is known to exist |
| Incremental.SanityCheckOldTree | jsglr-gwt/src/org/spoofax/jsglr/client/incremental/IncrementalSGLR.java:137-151 | an ambiguous old tree fails; otherwise the first damaged node without an incremental sort is reported, and the check succeeds exactly when there is none |
| Incremental.SanityCheckOldTreeLoop | jsglr-gwt/src/org/spoofax/jsglr/client/incremental/IncrementalSGLR.java:137-151 | the loop computes the old-tree check |
| Incremental.FirstUnsafe | jsglr-gwt/src/org/spoofax/jsglr/client/incremental/IncrementalSGLR.java:145-150 | none exactly when every node from i on has an incremental sort; otherwise the first one that has not |
| Incremental.SanityCheckRepairedFrom | jsglr-gwt/src/org/spoofax/jsglr/client/incremental/IncrementalSGLR.java:154-167 | succeeds exactly when every repaired node has an incremental sort and is unambiguous |
| Incremental.SanityCheckRepairedTreeLoop | jsglr-gwt/src/org/spoofax/jsglr/client/incremental/IncrementalSGLR.java:154-167 | the loop computes the repaired-tree check |
| DamageRegion.PartialRangeIsShiftedOriginal | org.spoofax.jsglr/src/org/spoofax/jsglr/client/incremental/DamageRegionAnalyzer.java:110-120 | a range of the partial tree is damaged exactly when the old-tree range it was shifted from is |
| DamageRegion.IsDamageTreeNodeLoop | org.spoofax.jsglr/src/org/spoofax/jsglr/client/incremental/DamageRegionAnalyzer.java:79-107 | the loop over the children computes the node test: no tokens or an undamaged span is false, a damaged incremental sort is true, otherwise the gaps decide |
| DamageRegion.ScanKidsSpec | org.spoofax.jsglr/src/org/spoofax/jsglr/client/incremental/DamageRegionAnalyzer.java:88-104 | the scan finds damage exactly when the gap before some child with tokens, or the tail after the last one, is damaged |
| DamageRegion.Anchored | org.spoofax.jsglr/src/org/spoofax/jsglr/client/incremental/DamageRegionAnalyzer.java:91-92 | only children with both tokens advance the scan |
| DamageRegion.GetDamageRegionTreeNodes | org.spoofax.jsglr/src/org/spoofax/jsglr/client/incremental/DamageRegionAnalyzer.java:58-70 | appending the collected nodes to the given results, in pre-order |
| DamageRegion.DamageRegionNodesSpec | org.spoofax.jsglr/src/org/spoofax/jsglr/client/incremental/DamageRegionAnalyzer.java:58-70 | the collected nodes are exactly the damaged non-list nodes reachable without passing through another collected node |
| DamageRegion.DamageRegionNodesListSpec | org.spoofax.jsglr/src/org/spoofax/jsglr/client/incremental/DamageRegionAnalyzer.java:64-68 | the same for the children of a node, left to right |
| DamageRegion.ExposedIsSmaller | org.spoofax.jsglr/src/org/spoofax/jsglr/client/incremental/DamageRegionAnalyzer.java:58-70 | a node reachable from a tree is the tree or smaller |
| DamageRegion.PartialAgreesWithOriginal | org.spoofax.jsglr/src/org/spoofax/jsglr/client/incremental/DamageRegionAnalyzer.java:46-56 | the two entry points differ only in the tree flag and the skipped characters: with none skipped and no size change they agree |
| DamageRegion.PartialAgreesWithOriginalList | org.spoofax.jsglr/src/org/spoofax/jsglr/client/incremental/DamageRegionAnalyzer.java:46-56 | the same for a list of children |
| DamageRegion.DamagedTreeNodeAgrees | org.spoofax.jsglr/src/org/spoofax/jsglr/client/incremental/DamageRegionAnalyzer.java:79-107 | the node test agrees on both flags with no shift |
| DamageRegion.ScanKidsAgrees | org.spoofax.jsglr/src/org/spoofax/jsglr/client/incremental/DamageRegionAnalyzer.java:88-104 | the child scan agrees on both flags with no shift |
| Jsglr2Reducing.ExistingStackWithDirectLinkSpec | org.spoofax.jsglr2/src/main/java/org/spoofax/jsglr2/reducing/ReducerSkipLayoutAndLexicalAndRejects.java:19-28 | a reject production rejects exactly that link and adds no derivation; otherwise links are unchanged and one derivation at the origin's position is added exactly when the link is unrejected and has a parse node |
| Jsglr2Reducing.NewLinkForSpec | org.spoofax.jsglr2/src/main/java/org/spoofax/jsglr2/reducing/ReducerSkipLayoutAndLexicalAndRejects.java:32-78 | the new link runs from the goto stack to the origin, is rejected exactly for a reject production, and carries a new parse node with one derivation unless the production is a reject or skippable |
| Jsglr2Reducing.NoExistingStackSpec | org.spoofax.jsglr2/src/main/java/org/spoofax/jsglr2/reducing/ReducerSkipLayoutAndLexicalAndRejects.java:56-78 | always returns a stack node that did not exist before, with the goto state, linked by the new link to the origin |
| Jsglr2Reducing.ReducerCasesPreserveValid | org.spoofax.jsglr2/src/main/java/org/spoofax/jsglr2/reducing/ReducerSkipLayoutAndLexicalAndRejects.java:19-78 | each of the three cases keeps every index in the state valid |
| Jsglr2Reducing.NewLinkForValid | org.spoofax.jsglr2/src/main/java/org/spoofax/jsglr2/reducing/ReducerSkipLayoutAndLexicalAndRejects.java:32-78 | the link-making part keeps every index valid |
| Jsglr2Reducing.ValidWithStackNode | org.spoofax.jsglr2/src/main/java/org/spoofax/jsglr2/reducing/ReducerSkipLayoutAndLexicalAndRejects.java:57 | a new stack node keeps every index valid |
| Jsglr2Reducing.Parse.constructor | org.spoofax.jsglr2/src/main/java/org/spoofax/jsglr2/reducing/ReducerSkipLayoutAndLexicalAndRejects.java:19-78 | a new parse state is empty at the given offset |
| Jsglr2Reducing.Parse.CreateStackNode | org.spoofax.jsglr2/src/main/java/org/spoofax/jsglr2/reducing/ReducerSkipLayoutAndLexicalAndRejects.java:57 | appends a stack node with the state at the current offset |
| Jsglr2Reducing.Parse.CreateStackLink | org.spoofax.jsglr2/src/main/java/org/spoofax/jsglr2/reducing/ReducerSkipLayoutAndLexicalAndRejects.java:49 | appends an unrejected link |
| Jsglr2Reducing.Parse.RejectStackLink | org.spoofax.jsglr2/src/main/java/org/spoofax/jsglr2/reducing/ReducerSkipLayoutAndLexicalAndRejects.java:38 | marks exactly that link rejected |
| Jsglr2Reducing.Parse.CreateParseNode | org.spoofax.jsglr2/src/main/java/org/spoofax/jsglr2/reducing/ReducerSkipLayoutAndLexicalAndRejects.java:46 | appends a parse node with one derivation |
| Jsglr2Reducing.Parse.AddDerivation | org.spoofax.jsglr2/src/main/java/org/spoofax/jsglr2/reducing/ReducerSkipLayoutAndLexicalAndRejects.java:27 | adds the derivation to exactly that parse node |
| Jsglr2Reducing.ReducerExistingStackWithDirectLink | org.spoofax.jsglr2/src/main/java/org/spoofax/jsglr2/reducing/ReducerSkipLayoutAndLexicalAndRejects.java:19-28 | changes the state as ExistingStackWithDirectLink says |
| Jsglr2Reducing.CreateLinkFor | org.spoofax.jsglr2/src/main/java/org/spoofax/jsglr2/reducing/ReducerSkipLayoutAndLexicalAndRejects.java:35-50 | changes the state as NewLinkFor says |
| Jsglr2Reducing.ReducerExistingStackWithoutDirectLink | org.spoofax.jsglr2/src/main/java/org/spoofax/jsglr2/reducing/ReducerSkipLayoutAndLexicalAndRejects.java:32-53 | changes the state and returns the link as ExistingStackWithoutDirectLink says |
| Jsglr2Reducing.ReducerNoExistingStack | org.spoofax.jsglr2/src/main/java/org/spoofax/jsglr2/reducing/ReducerSkipLayoutAndLexicalAndRejects.java:56-79 | changes the state and returns the stack as NoExistingStack says |
| Jsglr2Reducing.PathsThroughSpec | org.spoofax.jsglr2/src/main/java/org/spoofax/jsglr2/reducing/ReduceManagerElkhound.java:31-41 | the filtered paths are exactly those that contain the through link, in order; with no through link, all |
| Jsglr2Reducing.DispatchForSpec | org.spoofax.jsglr2/src/main/java/org/spoofax/jsglr2/reducing/ReduceManagerElkhound.java:27-42 | the deterministic path is used exactly when the depth reaches the arity, by the LR shortcut exactly when one stack is active; otherwise all paths; every path reduced contains the through link |
| Jsglr2Reducing.FilterPathsThrough | org.spoofax.jsglr2/src/main/java/org/spoofax/jsglr2/reducing/ReduceManagerElkhound.java:39-41 | the loop over all paths computes the through-link filter |
| Jsglr2Reducing.ElkhoundReducedSpec | org.spoofax.jsglr2/src/main/java/org/spoofax/jsglr2/reducing/ReduceManagerElkhound.java:52-58 | the shortcut always makes a stack node that did not exist, appended to both the active stacks and the actor queue |
| Jsglr2Reducing.ReducerElkhound | org.spoofax.jsglr2/src/main/java/org/spoofax/jsglr2/reducing/ReduceManagerElkhound.java:52-59 | changes the state as ElkhoundReduced says |
| Jsglr2Reducing.ReduceElkhoundPath | org.spoofax.jsglr2/src/main/java/org/spoofax/jsglr2/reducing/ReduceManagerElkhound.java:45-50 | uses the head's goto for the production's number, or fails leaving the state unchanged when the table has none |
| Jsglr2Reducing.DoReductionsHelper | org.spoofax.jsglr2/src/main/java/org/spoofax/jsglr2/reducing/ReduceManagerElkhound.java:27-43 | performs the LR shortcut exactly when the dispatch says so and returns the paths handed to reducePath |
| Variants.InvalidIffElkhoundOnPlainStack | org.spoofax.jsglr2/src/main/java/org/spoofax/jsglr2/JSGLR2Variants.java:88-90 | a variant is invalid exactly when it reduces the Elkhound way on a Basic or Hybrid stack |
| Variants.AllVariants | org.spoofax.jsglr2/src/main/java/org/spoofax/jsglr2/JSGLR2Variants.java:97-114 | the four nested loops produce the valid variants in nested order: forest representation, construction, stack, reducing |
| Variants.AddConstructions | org.spoofax.jsglr2/src/main/java/org/spoofax/jsglr2/JSGLR2Variants.java:99-112 | the construction loop appends the valid variants for one representation |
| Variants.AddStacks | org.spoofax.jsglr2/src/main/java/org/spoofax/jsglr2/JSGLR2Variants.java:100-111 | the stack loop appends the valid variants for one representation and construction |
| Variants.AddReducings | org.spoofax.jsglr2/src/main/java/org/spoofax/jsglr2/JSGLR2Variants.java:101-110 | the reducing loop appends exactly the valid variants |
| Variants.AllVariantsCount | org.spoofax.jsglr2/src/main/java/org/spoofax/jsglr2/JSGLR2Variants.java:97-114 | there are exactly 24 valid variants |
| Variants.WithStacksCount | org.spoofax.jsglr2/src/main/java/org/spoofax/jsglr2/JSGLR2Variants.java:100-111 | each representation and construction gives 6 valid variants |
| Variants.AllVariantsValid | org.spoofax.jsglr2/src/main/java/org/spoofax/jsglr2/JSGLR2Variants.java:97-114 | every listed variant is valid and none uses the Null representation |
| Variants.WithRepresentationsMembers | org.spoofax.jsglr2/src/main/java/org/spoofax/jsglr2/JSGLR2Variants.java:97-114 | every variant of the enumeration is valid and uses one of the enumerated representations |
| Variants.WithConstructionsMembers | org.spoofax.jsglr2/src/main/java/org/spoofax/jsglr2/JSGLR2Variants.java:99-112 | every variant for one representation is valid and has it |
| Variants.WithStacksMembers | org.spoofax.jsglr2/src/main/java/org/spoofax/jsglr2/JSGLR2Variants.java:100-111 | every variant for one construction is valid and has the representation |
| Variants.WithReducingsMembers | org.spoofax.jsglr2/src/main/java/org/spoofax/jsglr2/JSGLR2Variants.java:101-110 | every variant for one stack is valid and has the representation |
| Variants.GetParser | org.spoofax.jsglr2/src/main/java/org/spoofax/jsglr2/JSGLR2Variants.java:116-118 | an invalid variant is an illegal-state error; a valid one gets its parser |
| Variants.AllParsers | org.spoofax.jsglr2/src/main/java/org/spoofax/jsglr2/JSGLR2Variants.java:213-262 | one parser per valid variant, in the order of the enumeration |
| Variants.NameInjective | org.spoofax.jsglr2/src/main/java/org/spoofax/jsglr2/JSGLR2Variants.java:92-94 | the labelled name identifies the variant: distinct variants have distinct names |
| Variants.NameNested | org.spoofax.jsglr2/src/main/java/org/spoofax/jsglr2/JSGLR2Variants.java:92-94 | the name is the four labelled components in order |
| Productions.TypeFromInt | org.spoofax.jsglr2/src/main/java/org/spoofax/jsglr2/parsetable/Production.java:45-55 | a type other than NO_TYPE exactly for the codes 1 to 6 |
| Productions.TypeToInt | org.spoofax.jsglr2/src/main/java/org/spoofax/jsglr2/parsetable/Production.java:45-55 | the code of a type: 1 to 6 for the real types, 0 for NO_TYPE |
| Productions.TypeFromIntInvertsTypeToInt | org.spoofax.jsglr2/src/main/java/org/spoofax/jsglr2/parsetable/Production.java:45-55 | decoding the code of a type gives the type back |
| Productions.TypeFromIntInjective | org.spoofax.jsglr2/src/main/java/org/spoofax/jsglr2/parsetable/Production.java:45-55 | decoding is injective on 1 to 6 and encoding gives the code back |
| Productions.GettersReturnConstructorArguments | org.spoofax.jsglr2/src/main/java/org/spoofax/jsglr2/parsetable/Production.java:22-43 | every getter returns exactly the constructor's argument |

## Left out

- Logging, tracing, debugging output, timing and performance counters: they do not change results.
- The cancellation flag (`asyncAborted`) and thread interruption: these are concurrency.
- Error recovery (`RecoveryConnector`, parser history, the recursive re-parse with recovery productions): only the fine-grained-mode flag, the recovery costs of links and `AddNewRecoverStack` are modelled.
- Object pools for frames, links and path lists, and Java aliasing between them: the stack graph is an arena of values addressed by index, so a frame or link is identified by its index.
- Tree construction and output (`convertToATerm`, `yieldTree`, the tree builder, imploding): a parse result is the parse node stored on a link.
- `matchProdOnTopSort`: the pattern match over the production term is the table function `matchesTopSort`.
- `Disambiguation.ApplyCycleDetectFilter`: `isCyclicTerm` calls an unimplemented cycle check (it throws for production nodes and hits the fatal branch otherwise), so the model returns the matching Crash outcome instead of computing cycles.
- `AssocPriority.PriorityFilterLoop`: `replaceUnderInjections` is not modelled. A kid whose injected ambiguity keeps survivors makes the filter return a `Crash(NotImplemented)` failure in place of the rebuilt kid.
- `SglrParser.Sglr.ActorOnActiveStacksOverNewLink`: the nesting of re-actoring inside reductions is bounded by a fuel parameter, and a call with no fuel left does nothing. The source has no bound.
- `SglrParser.Sglr.CreateBadTokenException`: the chain of expected characters is cut after one step per parse-table state plus one. The source loops without a bound on a cyclic chain of singular shifts.
- `SglrParser.Sglr.ReduceAllPaths`, `SglrParser.Sglr.DoReductions`, `SglrParser.Sglr.DoLimitedReductions`, `SglrParser.Sglr.RedoReductionsOverNewLink`, `SglrParser.Sglr.ActorOnActiveStacksOverNewLink`, `SglrParser.Sglr.ParseCharacter`, `SglrParser.Sglr.DoParseStep`: these promise only that the stack graph grows (nothing is removed and the parser invariant holds), plus queue and reduction-count facts. They do not give the exact graph after a whole round of reductions.
- The parse table of the SGLR driver must be well formed (`SglrParser.TableOk`: shift targets are states, and reduced productions have gotos). The source expects every table it loads to be well formed.
- `setFilterIndirectPreference` and `getFilterIndirectPreference` always throw `UnsupportedOperationException`. They are not modelled. The indirect-preference rule itself is (`Preferences.IndirectPrefersDescends`).
- The filter getters are plain field reads of the switches in `Disambiguation.Disambiguator`, and have no members of their own.
- The construction of parser objects in `getParser` and `getJSGLR2`: a parser is represented by the variant it is built from.
- The rest of the incremental pipeline (comment and neighbour expanders, the input and tree builders, and the call of the batch parser on the damaged region): only the diff, the sanity checks and damage-region analysis are modelled.
- `SglrParser.Sglr.ActOnNextFrame`: when the picked frame has a live link, the round promises only growth and the queue facts, not the exact effect of `actor` on it.
- Input text is a sequence of characters, one per Unicode code point, where Java strings count UTF-16 code units. A character outside the Basic Multilingual Plane is one position in the model and two in the source. This affects `SglrParser.PushbackInput.Read`, `SglrInput.LookaheadPermits` and the offsets of `Incremental.DamageStart`, `Incremental.DamageEnd` and `Incremental.IncrementalStart`. Inputs made only of BMP characters are counted the same way.
- `SglrParser.Sglr.Parse`: on success it returns the parse node on the accepting stack's link to the start frame. It stops before handing that node to `disambiguator.applyFilters`, and before returning null when the tree builder is a `NullTreeBuilder`. Disambiguation is modelled separately, in `Disambiguation`.
- `Jsglr2Reducing`: the deterministic depth of a stack node is an input to the reducer's dispatch. The model does not maintain it: new stack nodes get depth 0, and the stack manager's update of the depth when links are added is not modelled.
- The ambiguity manager and the statistics taken from the parser: these are bookkeeping only.
- Parse-node identity in the tournament is structural equality of forest values. Java compares these nodes with `equals`, which the node classes define structurally.

## Findings

| source | as written | input that shows it | evidently intended | confidence | as-written member | corrected member |
|---|---|---|---|---|---|---|
| jsglr-gwt/src/org/spoofax/jsglr/client/incremental/IncrementalSGLR.java:187-202 | when the old or the new input is empty, `getDamageStart` returns the shorter length minus 1, that is -1, and `getDamageEnd` then reads `charAt(-1)` and throws | inserting "a" into the empty document "" | the damage starts at offset 0 when either input is empty, and the diff always reconstructs the new input | not executed | Incremental.DiffAsWrittenInsertIntoEmpty, Incremental.IncrementalStartAsWrittenInsertIntoEmpty | Incremental.DiffReconstructs, Incremental.IncrementalStartCorrectedSpec |
