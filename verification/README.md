# Verified models of the Zesu analysis tools

A Dafny model of the algorithms in `tools/` that the reports rest on: the scheduler-invariant form of
instruction windows, the repeat index over token streams, alpha-renamed motifs, the covering of the
binary by motifs, the graph analyses, the parallel Lean builder and the trace reducer. Each loop of
the source is a method with the same branches, proved against a definition that does not mention the
loop; the lemmas beside it say what that definition is worth.

`dafny verify dfyconfig.toml` checks the whole project.

## What is modelled

**Scheduler-invariant form** (`Windows`, `Dependence`, `Schedules`, `Reschedule`, `DagGraph`,
`ColourRefinement`, `RefinementStability`, `RefinementMeaning`, `Individualisation`, `CanonicalForm`,
`CanonicalSearch`, `CanonicalAnswer`, `ScheduleInvariance`, `InvarianceLimits`, with `Text`, `Rendering`,
`Sorting`, `Listing`, `Options`). A window is a sequence of instructions with read and write sets, memory
effects and a mnemonic. The dependence edges and the graph are characterised without the scans that build
them, down to the fields of the instructions; the closure of the edges orders every conflict; every order
that respects them runs to the same state under any execution function that is true to the declared
effects. Such orders rebuild isomorphic graphs exactly for the windows whose transfers are ordered before
everything after them, straight-line windows among them. The canonical form is modelled on actual text:
colours are strings, rounds render and renumber them, leaves are rendered lines. The refined colouring is
the coarsest below the first in which nodes of one colour have equally many neighbours of every edge kind
and colour. Below the leaf budget two forms are equal exactly when the graphs are isomorphic; isomorphic
graphs always get the same verdict; and equal texts, exact or approximate, always mean isomorphic graphs.

**Repeat index** (`SuffixArray`, `Kasai`, `LcpExactness`, `LcpIntervals`, `MaximalRepeats`,
`RepeatReport`, `ReportExactness`, `Separators`, `AscendingLists`, `Period`). Prefix doubling, Kasai's
algorithm with its amortised bound, and the interval stack, against the definition of maximal repeats
by occurrence sets; the failure function and the smallest period. The source ends streams with -1 and
separates segments by -2 and below. A stream whose last token also ends an earlier segment therefore
comes out unsorted; if more of the ending is shared, some entries of the common-prefix array come out
too long, and positions that do not hold one substring may be reported. The model describes what is
computed on all such streams and when it is what the source promises.

**Alpha motifs** (`Renaming`, `AlphaMotifs`). Renaming by first appearance decides equality up to a
bijection of registers that fixes the pinned ones; the one-step closure test stands for extensions
of every size up to the cap.

**Covering** (`Segmentation`, `Segments`, `Packing`, `PatternCover`, `CoverGuarantees`, `Cascade`,
`Dashboard`, `Leverage`). Segments are straight-line runs of instructions that nothing enters in the
middle. Greedy packing of equal-length windows is optimal; the cover places a largest packing in every
round, no candidate twice, and leaves nothing placeable; the cascade conserves instructions row by
row; the separately written leverage loop places the same windows.

**Graph analyses** (`Digraph`, `Tarjan`, `CallDepth`, `Dominators`, `ReturnTargets`, `Levels`).
Strongly connected components, call depth, dominators, return targets along tail calls, breadth-first
levels.

**Parallel builder** (`Manifest`, `ParallelBuild`, `BuildGuarantees`, `BuildLoop`). The main loop and
the workers as a transition system in which a worker may finish at any time, well or badly; safety of
every run, termination, and the verdict on cycles; the loop itself as a class whose fields follow a
run.

**Trace reducer** (`TraceSegments`, `TraceReduction`). What it is to cut a trace into occurrences, that
there is at most one cut, and the pass that finds it or rejects the trace.

## Model

| member | source | states |
|---|---|---|
| Windows.ReadsExactly | tools/ngram_motifs.py:580-589 | a register is read exactly when it is declared as read or stands in an operand slot that is not a written first slot |
| Windows.DestinationNotRead | tools/ngram_motifs.py:581-583 | a written first operand that is neither declared as read nor repeated is not read |
| Windows.EdgesExactly | tools/ngram_motifs.py:541-577 | the edges said over operands, declared registers and memory accesses alone: kind by kind, which pairs of instructions are joined |
| Windows.SetTwice | tools/ngram_motifs.py:557-564 | two instructions that set the same register and read nothing are joined by one edge, of kind waw |
| Windows.ConflictAtOrdered | tools/ngram_motifs.py:541-577 | two instructions that touch the same register or memory, one of them writing it, are ordered by a chain of edges although only the last writer and the open readers are remembered |
| Windows.ConflictsOrdered | tools/ngram_motifs.py:542-544 | every conflict, and everything before a control transfer, is ordered by the transitive closure of the edges |
| Windows.EdgesConflict | tools/ngram_motifs.py:541-577 | no edge is spurious: its ends conflict, or its sink is a transfer |
| Dependence.ScanReads | tools/ngram_motifs.py:553-556 | the reading loop adds exactly the raw edges from the last writers and records the reader |
| Dependence.ScanWrites | tools/ngram_motifs.py:557-564 | the writing loop adds exactly the waw and war edges, makes this the last writer and forgets the readers |
| Dependence.ScanMemory | tools/ngram_motifs.py:565-576 | memory is one location with the last store and the loads since; an instruction that does both depends on itself |
| Dependence.DependenceEdges | tools/ngram_motifs.py:541-577 | the one-pass scan returns exactly the edges defined over the whole window: a last writer or an open reader with nothing between, said over the fields of the instructions |
| Schedules.ConflictsKeepOrder | tools/ngram_motifs.py:542-544 | in an order that respects the edges every conflicting pair, and every instruction before a transfer, keeps its order |
| Schedules.KeepingConflictsRespects | tools/ngram_motifs.py:542-544 | conversely an order that keeps those pairs respects every edge |
| Schedules.Commute | tools/ngram_motifs.py:542-544 | instructions that do not conflict can be exchanged, for any execution function true to the declared effects |
| Schedules.RunInTurn | tools/ngram_motifs.py:541-544 | running a window is executing its instructions one after the other |
| Schedules.ReschedulingPreservesMeaning | tools/ngram_motifs.py:541-577 | any order that respects the edges takes every state to the state the original window takes it to |
| Reschedule.Tabulate | tools/ngram_motifs.py:708-713 | successors and in-degrees count one entry per edge |
| Reschedule.Release | tools/ngram_motifs.py:719-722 | releasing the successors of a placed node leaves `ready` holding exactly the unplaced nodes that wait for nothing |
| Reschedule.DrawOrder | tools/ngram_motifs.py:714-722 | the loop places nodes after everything they wait for, and what it leaves out waits for something left out, whatever is drawn |
| Reschedule.Reschedule | tools/ngram_motifs.py:703-725 | nothing is returned exactly when an instruction depends on itself or the drawn order is the original; otherwise the result is the window in an order that respects the edges |
| Reschedule.EveryOrderDrawable | tools/ngram_motifs.py:716-718 | every order that respects the edges can be drawn: its next node is always ready |
| Reschedule.NothingAlwaysPossible | tools/ngram_motifs.py:703-724 | contrary to the docstring, nothing may be returned for every window; a result is possible exactly when a second order respects the edges and no instruction depends on itself |
| DagGraph.EveryReadUsed | tools/ngram_motifs.py:615-623 | every register an instruction effectively reads is a use, by slot or as an implicit one |
| DagGraph.SlotUse | tools/ngram_motifs.py:615-620 | a use of kind `in` and a number is of the register in that operand slot, unless it is a written first slot |
| DagGraph.ImplicitUse | tools/ngram_motifs.py:621-623 | a use of kind `in*` is of a register declared as read that stands in no source slot |
| DagGraph.GraphExactly | tools/ngram_motifs.py:592-625 | labels, live-in registers and edges over the fields of the window: which slot, which kind, nothing written before |
| DagGraph.PinnedApart | tools/ngram_motifs.py:609-613 | a pinned live-in register is labelled apart from every other live-in register |
| DagGraph.ExchangedOperands | tools/ngram_motifs.py:615-620 | exchanging a pinned and an unpinned operand of an instruction gives a graph that is not isomorphic |
| DagGraph.BuildDagGraph | tools/ngram_motifs.py:592-625 | labels are mnemonics and one node per live-in register; edges are the dependences and every use of a live-in register by its slot, and nothing else, said over the fields of the window |
| ScheduleInvariance.RescheduledGraphIsomorphic | tools/ngram_motifs.py:596-600 | if every transfer is ordered before everything after it, every order that respects the dependences rebuilds an isomorphic graph |
| InvarianceLimits.InvariantIffTransfersFixed | tools/ngram_motifs.py:541-625 | for every window, all respecting orders rebuild isomorphic graphs if and only if every transfer is ordered before everything after it, as in straight-line windows |
| InvarianceLimits.ForwardRespects | tools/ngram_motifs.py:541-577 | an instruction can be scheduled first, behind only what it transitively depends on |
| InvarianceLimits.TerminatedGrows | tools/ngram_motifs.py:551-552 | no schedule loses a terminator edge, and one that moves an instruction before a transfer it followed gains one |
| InvarianceLimits.JumpMovable | tools/ngram_motifs.py:551-552 | the smallest failure: a jump and an instruction without operands behind it |
| InvarianceLimits.TwoJumpsFixed | tools/ngram_motifs.py:551-552 | two jumps in a row pass the condition although the window is not straight-line |
| ScheduleInvariance.WindowForm | tools/ngram_motifs.py:648-700 | the whole computation from window to text yields an answer for the window's graph |
| ScheduleInvariance.FormScheduleInvariant | tools/ngram_motifs.py:596-600 | under the same condition re-scheduling changes neither the verdict nor, under the budget, the text |
| ScheduleInvariance.WindowFormsEqualIffIsomorphic | tools/ngram_motifs.py:648-656 | equal forms of two windows mean isomorphic graphs, and under the budget the converse holds |
| ColourRefinement.Refine | tools/ngram_motifs.py:628-645 | the loop that stops at the first unchanged round computes the round iterated as often as there are nodes |
| RefinementStability.RoundMonotone | tools/ngram_motifs.py:634-641 | a round of a finer colouring is finer than a round of a coarser one: signatures can be read back |
| RefinementStability.RefinedStable | tools/ngram_motifs.py:628-645 | one more round splits no class of the result |
| RefinementStability.RefinedCoarsest | tools/ngram_motifs.py:628-645 | every colouring below the first that a round does not split is below the result |
| RefinementMeaning.RefinedBalanced | tools/ngram_motifs.py:628-645 | nodes of one refined colour have equally many neighbours of every kind and refined colour, in both directions |
| RefinementMeaning.RefinedCoarsestBalanced | tools/ngram_motifs.py:628-645 | every colouring below the first with that counting property is below the result |
| RefinementMeaning.SameColourSameNeighbours | tools/ngram_motifs.py:634-641 | the same over the edges of the graph |
| RefinementMeaning.KindsSeparate | tools/ngram_motifs.py:637-638 | a node with an edge of some kind is separated from every node without |
| RefinementMeaning.OperandsSeparated | tools/ngram_motifs.py:628-638 | in the graph of a window, a register used in one slot is separated from one that is never used in that slot |
| RefinementMeaning.RoundNumbers | tools/ngram_motifs.py:640-641 | new colours number the distinct signatures from zero in ascending order |
| ColourRefinement.RoundEquivariant | tools/ngram_motifs.py:634-641 | a round commutes with renaming the nodes, and stops in one graph exactly when it does in the other |
| ColourRefinement.RoundsEquivariant | tools/ngram_motifs.py:628-645 | so do any number of rounds |
| ColourRefinement.RoundFiner | tools/ngram_motifs.py:639-641 | a round only splits classes: the old colour can be read off the new one |
| ColourRefinement.FinerHasMore | tools/ngram_motifs.py:628-645 | a finer colouring has at least as many classes |
| ColourRefinement.RefinedNumerals | tools/ngram_motifs.py:640-641 | refined colours are decimal numerals, free of the mark used to individualise |
| Individualisation.ChildSplits | tools/ngram_motifs.py:689-691 | individualising a tied node and refining strictly increases the number of classes, so the search terminates |
| Individualisation.TargetUnique | tools/ngram_motifs.py:684 | the class to individualise is determined by sizes and colours alone |
| Individualisation.TargetEquivariant | tools/ngram_motifs.py:677-684 | isomorphic graphs individualise corresponding classes |
| Individualisation.OrderEquivariant | tools/ngram_motifs.py:668 | without ties the emission order is carried along by an isomorphism |
| Individualisation.LeafEquivariant | tools/ngram_motifs.py:667-673 | corresponding leaves are written as the same lines |
| CanonicalForm.Adjacent | tools/ngram_motifs.py:659-663 | the adjacency lists hold exactly the edges of the graph |
| CanonicalForm.IsomorphismCarries | tools/ngram_motifs.py:659-663 | an isomorphism carries the neighbours of a node to those of its image, as multisets |
| CanonicalSearch.Classify | tools/ngram_motifs.py:677-679 | the dictionary holds every colour class in node order |
| CanonicalSearch.FindTarget | tools/ngram_motifs.py:680-684 | the chosen list is the target class, or none when nothing is tied |
| CanonicalSearch.LeavesEquivariant | tools/ngram_motifs.py:675-697 | isomorphic search trees have the same multiset of leaf texts |
| CanonicalSearch.Search.Explore | tools/ngram_motifs.py:675-697 | under the budget every leaf is counted once and the least text returned; when the budget is reached the shared counter says so; what is returned is always some way of writing the graph |
| CanonicalAnswer.DagCanonicalForm | tools/ngram_motifs.py:648-700 | an exact answer is the least leaf, and is given exactly when the whole tree has fewer leaves than the budget; any other answer is marked |
| CanonicalAnswer.LeavesInvariant | tools/ngram_motifs.py:648-656 | isomorphic graphs have the same leaves, so the same count and the same verdict |
| CanonicalAnswer.WrittenDetermines | tools/ngram_motifs.py:667-673 | a text determines the graph it was written from, up to isomorphism |
| CanonicalAnswer.EqualAnswersIsomorphic | tools/ngram_motifs.py:654-656 | equal answers, exact or approximate, come only from isomorphic graphs; an approximate one never equals an exact one |
| CanonicalAnswer.ExactFormsEqualIffIsomorphic | tools/ngram_motifs.py:648-656 | under the budget two answers are equal if and only if the graphs are isomorphic |
| Sorting.ColouredAscend | tools/ngram_motifs.py:668 | the emission order ascends by colour, and by index within a colour |
| Sorting.TextPairsAscend | tools/ngram_motifs.py:637-638 | neighbours are listed by kind, and by colour within a kind |
| Sorting.RankPairsAscend | tools/ngram_motifs.py:671 | predecessors are written by rank, and by kind within a rank |
| Rendering.PairsLook | tools/ngram_motifs.py:637-639 | what the lists of neighbours inside a signature look like |
| Rendering.LineLook | tools/ngram_motifs.py:671 | what a line looks like without and with a predecessor |
| Rendering.FormLook | tools/ngram_motifs.py:670-673 | lines are joined by a bar |
| Text.LessAtDifference | tools/ngram_motifs.py:693 | texts are compared at their first difference, a proper prefix coming first |
| Text.DecimalReads | tools/ngram_motifs.py:641 | a numeral reads back as its number and has no leading zero |
| Rendering.FormTextInjective | tools/ngram_motifs.py:670-673 | the rendered lines can be read back from the text |
| SuffixArray.BeforeIsLexLess | tools/ngram_motifs.py:400-418 | suffixes are in lexicographic order exactly when their first difference is, the end counting as less than every token |
| SuffixArray.KeysTell | tools/ngram_motifs.py:408-409 | on any stream, equal pairs of ranks of h-token prefixes mean equal prefixes of 2h tokens |
| SuffixArray.KeyDoubles | tools/ngram_motifs.py:408-409 | a pair of ranks of h-token prefixes decides how 2h-token prefixes are placed: lexicographically, except that behind an odd number of shared tokens the end counts as -1 |
| SuffixArray.NewRanks | tools/ngram_motifs.py:410-415 | the new ranks order and separate exactly as the keys do, and end at n - 1 exactly when all keys differ |
| SuffixArray.RanksDouble | tools/ngram_motifs.py:406-417 | after each round the rank decides exactly the prefixes of the doubled length |
| SuffixArray.Build | tools/ngram_motifs.py:400-418 | after logarithmically many doublings every suffix is in its place; the order is that of the suffixes if and only if no earlier copy of the last token precedes a separator |
| SuffixArray.PlacedIsLexLess | tools/ngram_motifs.py:408 | where there is no such copy, places are lexicographic |
| SuffixArray.MisplacedUnsorted | tools/ngram_motifs.py:408 | such a copy is placed before the last suffix, though that is a proper prefix of it, because the end marker is -1 and separators are less |
| Kasai.SlipTurns | tools/ngram_motifs.py:437-442 | dropping the first token of a suffix costs at most one shared token, unless the order turns round between a copy of the last tokens and the end of the stream |
| Kasai.SlipRecovers | tools/ngram_motifs.py:437-442 | dropping two tokens never costs more than two |
| Kasai.SlipStops | tools/ngram_motifs.py:433-441 | after such a slip the comparison starts where it fails at once, so the length carried over is recorded |
| Kasai.Extend | tools/ngram_motifs.py:434-439 | the inner loop reaches the exact common prefix from any lower bound, and keeps a start beyond it where the next tokens differ |
| Kasai.LcpArray | tools/ngram_motifs.py:421-443 | on the order of any stream whose separators differ, every entry is the common prefix or, after a slip, one less than the entry of the suffix before; the inner loop advances at most 2n times in all |
| LcpExactness.ExactIffReliable | tools/ngram_motifs.py:421-443 | for every threshold, the entries from there on are exact if and only if the stream passes a test on how often its last tokens recur before a separator |
| LcpExactness.LcpArrayExactIff | tools/ngram_motifs.py:422 | the whole array is as documented if and only if the stream passes the test at 1 |
| LcpIntervals.StackNext | tools/ngram_motifs.py:471-480 | after every turn the stack holds exactly the intervals still open, by increasing value |
| LcpIntervals.PopNext | tools/ngram_motifs.py:475-478 | each pop reports one interval not reported before |
| LcpIntervals.PoppingEnds | tools/ngram_motifs.py:475-478 | when popping stops, exactly the intervals that closed have been reported |
| MaximalRepeats.RangeShares | tools/ngram_motifs.py:421-443 | two sorted suffixes share v tokens exactly when every step between them does |
| MaximalRepeats.IntervalIsRepeat | tools/ngram_motifs.py:446-449 | the positions of an interval are all occurrences of a right-maximal substring, ascending |
| MaximalRepeats.RepeatIsInterval | tools/ngram_motifs.py:446-449 | every maximal repeat is the positions of one interval |
| MaximalRepeats.MaximalIffClosed | tools/ngram_motifs.py:447-449 | a repeat is left- and right-maximal exactly when no longer pattern, extended by any amount on either side, occurs everywhere it does |
| RepeatReport.LeftsMaximal | tools/ngram_motifs.py:466-468 | two different left neighbours, the edge counting as one, mean left-maximal |
| RepeatReport.NotSeen | tools/ngram_motifs.py:462-464 | the `seen` test never fires |
| RepeatReport.Emit | tools/ngram_motifs.py:459-469 | one call appends the range's repeat if it is long enough and left-maximal, and remembers its key |
| RepeatReport.ReportIs | tools/ngram_motifs.py:459-480 | what is reported are the intervals of the array that are long enough and have different left neighbours |
| RepeatReport.ReportExact | tools/ngram_motifs.py:446-449 | from an array exact from the minimum on, those are exactly the maximal repeats of at least the minimum length |
| RepeatReport.Find | tools/ngram_motifs.py:446-481 | on every stream whose separators differ, the report of the array the code computes; each maximal repeat of at least the minimum length exactly once, with its complete sorted occurrence list, and nothing else, whenever the stream passes the test at the minimum |
| ReportExactness.ExactIffSound | tools/ngram_motifs.py:446-449 | a report is exact if and only if every pair in it lists positions of one substring: nothing is missed unless something wrong is reported |
| ReportExactness.InPlaceUnique | tools/ngram_motifs.py:400-418 | a stream has only one order with every suffix in its place |
| ReportExactness.TwiceMisreported | tools/ngram_motifs.py:446-449 | a stream on which length 2 is reported at the positions 0, 1, 4 and 5, which hold different tokens |
| Separators.StreamWithSeparators | tools/ngram_motifs.py:991-1008 | the loops join the segments with the separator of each boundary between them; no token is the end marker, and every separator occurs once |
| Separators.RepeatsInsideSegments | tools/ngram_motifs.py:994-995 | no maximal repeat, as defined, holds a separator, so none spans two segments; of a report this holds where the report is exact |
| Separators.SafeIffLastTokenUnique | tools/ngram_motifs.py:1001-1007 | a joined stream is sorted correctly if and only if no earlier segment ends with the last token of all |
| Separators.ShallowIff | tools/ngram_motifs.py:1001-1007 | the last tokens of a joined stream recur before a separator exactly as far as an earlier segment shares the end of the last one |
| Separators.ReliableIff | tools/ngram_motifs.py:1001-1007 | the test, on segments: at most t shared ending tokens, or one more if t is odd and the latest segment that shares t shares no more |
| Separators.JoinedLcpExactIff | tools/ngram_motifs.py:422 | on joined segments the array is as documented if and only if no earlier segment shares three ending tokens with the last and the latest that shares one shares no second |
| Separators.JoinedReportExact | tools/ngram_motifs.py:446-449 | what is reported from joined segments is exact whenever they pass that test at the minimum, in particular whenever the last segment shares at most the minimum number of ending tokens with every earlier one |
| Separators.TokensReportExact | tools/ngram_motifs.py:446-449 | what is reported from a stream without separators is exact at every minimum |
| Separators.EqualSegmentsMislead | tools/ngram_motifs.py:408 | a segment of two tokens, twice, is not sorted |
| Separators.EqualSegmentsMisreported | tools/ngram_motifs.py:446-449 | a segment of three tokens, twice, is reported wrongly at the default minimum |
| Period.Failure | tools/ngram_motifs.py:502-510 | the failure array holds the longest proper border of every prefix |
| Period.Fallback | tools/ngram_motifs.py:506-507 | falling back along the failure array loses no border that could be extended |
| Period.SmallestPeriod | tools/ngram_motifs.py:499-511 | the result is the least p >= 1 with equal tokens at distance p |
| Packing.NonOverlapping | tools/ngram_motifs.py:488-496 | the greedy count is that of the largest disjoint selection of occurrences |
| Renaming.AlphaRename | tools/ngram_motifs.py:358-375 | the loops with the growing dictionary produce the tokens whose equality the next row decides |
| Renaming.NamesByAppearance | tools/ngram_motifs.py:364-374 | the tokens themselves: a pinned register stays, any other is `r` and the number of registers named before its first operand |
| Renaming.AlphaDecides | tools/ngram_motifs.py:358-375 | two windows get the same tokens if and only if mnemonics agree and a bijection fixing the pinned registers carries one operand sequence to the other |
| Renaming.SubWindowsEqual | tools/ngram_motifs.py:1039-1040 | equal windows have equal sub-windows although renaming starts afresh in each |
| AlphaMotifs.MotifsOfLength | tools/ngram_motifs.py:1044-1055 | exactly the motifs of one length that occur twice or more, each with all its starts ascending |
| AlphaMotifs.AlphaMotifs | tools/ngram_motifs.py:1034-1056 | a table for exactly the lengths up to the cap at which some segment has a window |
| AlphaMotifs.ClosedAlphaMotifs | tools/ngram_motifs.py:1059-1080 | the motifs whose starts are not those of a motif one longer, unshifted or shifted by one; each once |
| AlphaMotifs.PreservedByOne | tools/ngram_motifs.py:1069-1079 | an extension of any size that preserves the starts yields one by a single token that does |
| AlphaMotifs.OneStepSuffices | tools/ngram_motifs.py:1062-1079 | the one-step test finds a preserving extension exactly when there is one of any size, on either side, up to the cap |
| AlphaMotifs.ClosedExactly | tools/ngram_motifs.py:1062-1066 | what is kept is exactly the repeated motifs, with all their starts, that no longer motif up to the cap preserves |
| Segmentation.CountPredecessors | tools/ngram_motifs.py:326-329 | the counter holds, for every address, how often it is listed as a successor |
| Segmentation.Segment | tools/ngram_motifs.py:324-346 | the segments partition the instructions into runs, with a boundary exactly where the next instruction is not four bytes on, follows a transfer, or has several flow predecessors |
| Segmentation.EnteringOnce | tools/ngram_motifs.py:326-338 | the counter is at most one exactly when no two places of the rows list the address |
| Segmentation.JoinedIff | tools/ngram_motifs.py:333-343 | an instruction is in the segment of the one before it exactly when it is four bytes on, that one does not transfer control, and no two places list it as a successor |
| Segmentation.WindowsStraightLine | tools/ngram_motifs.py:335-339 | in every window of a segment only the last instruction may transfer control, addresses are consecutive and at most one flow edge enters each instruction but the first |
| Segmentation.SegmentsCover | tools/ngram_motifs.py:324-346 | the segments meet what the alpha-motif search needs of them |
| Segments.WindowsExact | tools/pattern_cover.py:19-24 | the windows of a length are exactly the contiguous stretches that cross no segment boundary |
| Segments.WindowsInOrder | tools/pattern_cover.py:19-24 | they come in strictly ascending start order |
| Segments.Groups | tools/pattern_cover.py:27-40 | the loop of appends builds the grouping that the next row characterises |
| Segments.GroupedExact | tools/pattern_cover.py:27-40 | keys are distinct, every key in use is present, and each holds all its windows in order |
| Packing.Scan | tools/pattern_cover.py:56-64 | the inner loop returns the greedy packing of a candidate |
| Packing.PackIsPacking | tools/pattern_cover.py:56-64 | its windows are pairwise disjoint and clear of what is covered |
| Packing.PackMaximum | tools/pattern_cover.py:48-66 | no selection of disjoint uncovered windows of the candidate is larger |
| Packing.PackedOut | tools/pattern_cover.py:53-74 | once placed, a candidate has nothing left, whatever is covered later |
| PatternCover.PickBest | tools/pattern_cover.py:54-66 | the first of the candidates with the largest packing |
| PatternCover.GreedyCover | tools/pattern_cover.py:43-76 | the loop makes the placements of the specification and extends the caller's cover by exactly their cells |
| CoverGuarantees.CoverIsPacking | tools/pattern_cover.py:48 | all placed windows are pairwise disjoint and avoid prior claims |
| CoverGuarantees.EveryPlacementLargest | tools/pattern_cover.py:48 | each placement is a maximum packing of its candidate, of at least the minimum, that no candidate's exceeds at that moment |
| CoverGuarantees.NoCandidateTwice | tools/pattern_cover.py:43-76 | no candidate is placed twice |
| CoverGuarantees.CoverExhausts | tools/pattern_cover.py:67-68 | at exit no candidate has the required number of disjoint unclaimed windows |
| CoverGuarantees.CoverClaims | tools/pattern_cover.py:70-75 | with windows of one length, the claimed cells were free and number that length times the placements |
| Cascade.PoolOrderly | tools/ngram_dashboard.py:115-125 | the candidates built for a length meet what the cover needs |
| Cascade.PoolByFirstUse | tools/ngram_dashboard.py:115-125 | the candidates come in the order in which their first windows start, which is how ties between them are broken |
| Cascade.CascadePrefix | tools/ngram_dashboard.py:131-137 | every layer is the greedy cover of its length given what the longer lengths claimed |
| Cascade.CascadeConserves | tools/ngram_dashboard.py:131-158 | at every point the claimed instructions are new and number the sum of length times placements |
| Cascade.CascadeMaximal | tools/ngram_dashboard.py:111-112 | at the end no repeat of any length has the required number of disjoint uncovered admissible windows |
| Dashboard.Precompute | tools/ngram_dashboard.py:113-125 | exactly the lengths that have candidates, each with all of them |
| Dashboard.CountLayer | tools/ngram_dashboard.py:138-153 | the placement loop counts repeats, uses, savings and the largest, and claims nothing new |
| Dashboard.CascadeRows | tools/ngram_dashboard.py:107-173 | the rows describe the cascade's layers, largest length first |
| Dashboard.RowsConserve | tools/ngram_dashboard.py:155-172 | in every row the cumulative cover is what was claimed beforehand plus all instructions claimed so far, and the saving is those less one per placement |
| Leverage.Pick | tools/ngram_dashboard.py:299-308 | the second implementation picks the same packing |
| Leverage.BucketFalls | tools/ngram_dashboard.py:313-317 | a placement is counted inside one instance when all its windows start in one, as same-function when they start in several of one function, and as across functions when two start in different ones |
| Leverage.FallsOnce | tools/ngram_dashboard.py:315-317 | every placement falls into exactly one of the three |
| Leverage.TwiceInOneInstance | tools/ngram_dashboard.py:313-317 | a pattern that one instance repeats is counted inside one instance |
| Leverage.LeverageLayer | tools/ngram_dashboard.py:298-320 | its rounds make the same placements, and each bucket gains exactly those that fall into it |
| Leverage.MotifLeverage | tools/ngram_dashboard.py:265-329 | over all lengths it places what the cascade places, and the tally counts the placements by where their windows start |
| Leverage.BucketsSumToCascade | tools/ngram_dashboard.py:292-320 | the bucket totals sum to what the cascade's rows claim, and both to the covered count |
| Tarjan.Search.Visit | tools/analyze_rv64.py:218-238 | one recursive visit numbers what it can reach outside the numbered nodes, keeps the stack a chain of links and emits finished components |
| Tarjan.Search.Components | tools/analyze_rv64.py:239-243 | the visits emit disjoint closed components that exhaust the nodes |
| Tarjan.Sccs | tools/analyze_rv64.py:210-243 | two nodes share a component exactly when each reaches the other inside the node set, the components cover the nodes, and each comes after every other it reaches |
| CallDepth.CyclicIsRecursive | tools/analyze_rv64.py:301-304 | the test on components holds exactly when the graph has a cycle |
| CallDepth.Depths.Depth | tools/analyze_rv64.py:307-312 | the memoised recursion returns the length of the longest chain from a function, and terminates |
| CallDepth.MaximumDepth | tools/analyze_rv64.py:288-314 | recursion is reported exactly when some chain of calls between different functions, from reachable block to reachable block, closes; otherwise the answer is the number of functions on the longest chain |
| CallDepth.CallsInsideOnly | tools/analyze_rv64.py:294-300 | a program whose calls all stay inside functions has no chain of two functions, and nothing recurses |
| CallDepth.InsideDepth | tools/analyze_rv64.py:294-314 | its depth is one as soon as anything is reachable |
| Dominators.Reachable | tools/generate_zesu_cfg.py:451-456 | the work list finds exactly the names reachable from the root |
| Dominators.DominatorsChain | tools/generate_zesu_cfg.py:457-464 | of two dominators of a name one dominates the other |
| Dominators.Pass | tools/generate_zesu_cfg.py:460-464 | a pass keeps the table above the dominators, and changes it only by making it smaller |
| Dominators.Dominating | tools/generate_zesu_cfg.py:457-464 | the iteration ends with every row holding exactly the names on every call path from the root |
| Dominators.LargestIsImmediate | tools/generate_zesu_cfg.py:466-468 | the strict dominator with the most dominators is the immediate one |
| Dominators.ImmediateUnique | tools/generate_zesu_cfg.py:466-468 | there is only one immediate dominator |
| Dominators.DominatorParents | tools/generate_zesu_cfg.py:445-469 | every name that some path of calls reaches, but the root, gets the last of the names that all paths of calls to it share |
| Dominators.ParentsLeadToRoot | tools/generate_zesu_cfg.py:465-469 | the parents form a tree: from every name they lead to the root in as many steps as it has strict dominators |
| ReturnTargets.Collect | tools/generate_level_manifest.py:134-144 | the direct return targets, and the tail calls |
| ReturnTargets.Sweep | tools/generate_level_manifest.py:147-152 | a sweep that changes anything brings the fixed point closer; one that does not has reached it |
| ReturnTargets.Propagate | tools/generate_level_manifest.py:134-152 | the result is the least solution: an address is a target of a function exactly when a linking call before it reaches the function by tail calls |
| Levels.Depths | tools/generate_level_manifest.py:175-183 | exactly the reachable instances get a depth, and it is the length of a shortest path; the second test never holds |
| Levels.ReachableFrom | tools/analyze_rv64.py:198-207 | the work list returns exactly what is reachable from the entries |
| Levels.ExecutionPcs | tools/generate_level_manifest.py:185-194 | the union of the local counters of everything reachable |
| Manifest.Dependencies | tools/parallel_lean_build.py:46-67 | exactly the manifest modules reached by chains of imports through files outside the manifest |
| Sorting.StringsAscend | tools/parallel_lean_build.py:115-117 | the ready modules are taken in ascending order of their names |
| ParallelBuild.InvNext | tools/parallel_lean_build.py:114-148 | every step keeps every module in one place, submissions after their dependencies, and the job bound |
| ParallelBuild.InvRun | tools/parallel_lean_build.py:114-148 | so every state of every run does |
| BuildGuarantees.StartsAfterDependencies | tools/parallel_lean_build.py:115-124 | a module is submitted only after everything it transitively depends on completed |
| BuildGuarantees.PlacesAndJobs | tools/parallel_lean_build.py:114-148 | pending, running and completed stay disjoint, together hold every module while no failure was raised, and at most `jobs` run |
| BuildGuarantees.NoDependantStarts | tools/parallel_lean_build.py:115-148 | once a module has failed, nothing that transitively depends on it has been submitted, then or at any later state of the run |
| BuildGuarantees.FailureStays | tools/parallel_lean_build.py:136-144 | a failure stays known for the rest of the run, even when another one is raised |
| BuildGuarantees.RaisedIsFinal | tools/parallel_lean_build.py:140-144 | after a failure is raised nothing is submitted or completed |
| BuildGuarantees.MeasureFalls | tools/parallel_lean_build.py:114-148 | every step, of the loop or of a worker, brings the end closer |
| BuildGuarantees.RunsEnd | tools/parallel_lean_build.py:114-148 | no run takes more than seven steps per module and four |
| BuildGuarantees.Progress | tools/parallel_lean_build.py:114-148 | a build that is not over can take a step |
| BuildGuarantees.Outcome | tools/parallel_lean_build.py:114-131 | without failures a run that has ended reports a cycle exactly when the dependency graph has one, and otherwise has compiled every module once |
| BuildLoop.DependencyTable | tools/parallel_lean_build.py:104-107 | the dependencies of every module, a graph closed in the manifest |
| BuildLoop.Builder.Fill | tools/parallel_lean_build.py:115-131 | submitting up to the job bound is a sequence of steps of the system and ends waiting, or stuck with nothing running |
| BuildLoop.Builder.Await | tools/parallel_lean_build.py:133-135 | the wait returns one or more workers that finished, with any outcomes |
| BuildLoop.Builder.Collect | tools/parallel_lean_build.py:136-148 | successes are completed; the first failure ends the build |
| BuildLoop.Builder.Build | tools/parallel_lean_build.py:99-148 | the loop follows a run of the system, ends, and its three outcomes mean what they say |
| TraceSegments.CutUnique | tools/level1_evidence/analyze.py:103-154 | a trace has at most one cut into occurrences |
| TraceSegments.OccurrencesOrdered | tools/level1_evidence/analyze.py:103-154 | occurrences are ordered and disjoint |
| TraceSegments.CutNeedsEnd | tools/level1_evidence/analyze.py:119-142 | an occurrence that ends where nothing is expected belongs to no cut |
| TraceReduction.Observe | tools/level1_evidence/analyze.py:111-154 | one execution inside an occurrence extends it, ends it, or fails it for the stated reason |
| TraceReduction.ReduceInstance | tools/level1_evidence/analyze.py:88-154 | a trace is accepted exactly when every entry snapshot is complete and the trace has a cut; the report is that of the cut; any error names the first thing that goes wrong |
| TraceReduction.RejectedNoCut | tools/level1_evidence/analyze.py:111-142 | a trace rejected for any of those reasons has no cut |
| TraceReduction.RejectedOnce | tools/level1_evidence/analyze.py:111-142 | it can be rejected for one reason and after one sequence of occurrences only |
| TraceReduction.HostWritesConcatenate | tools/level1_evidence/analyze.py:116-118 | the instance's host writes are those of its occurrences, in order |
| TraceReduction.StoreAttributedOnce | tools/level1_evidence/analyze.py:82-87 | a store is attributed, as often as recorded, to the one occurrence whose interval holds its execution |
| TraceReduction.StoresInOrder | tools/level1_evidence/analyze.py:122-124 | the stores of an occurrence come by execution, those of one execution in the order recorded |
| TraceReduction.ReduceTrace | tools/level1_evidence/analyze.py:74-179 | a trace is accepted exactly when every instance accepts it, each with its report; the first that is rejected rejects it, for its reason |

## Left out

Deliberate limits of the statements above:

- CanonicalAnswer.ExactFormsEqualIffIsomorphic: labels hold no `[` or `|` and do not begin with the marker of an approximate form, which RV64 mnemonics and the live-in labels satisfy; escaping by Python's `repr` of strings with quotes is therefore not modelled.
- SuffixArray.Build: no token equals the end marker -1; `stream_with_separators` makes none.
- RepeatReport.Find: the test is enough for an exact report, not needed: a wrong array can by chance report rightly. What decides is `ReportExactness.ExactIffSound`, on the report itself. A separator behind a copy of the last token has to differ from all other tokens, as every separator of `stream_with_separators` does.
- Separators.StreamWithSeparators: tokens are numbered already; the maps between stream and instructions are left out.
- RefinementStability.RefinedStable: colours and edge kinds hold no quote, `|` or `<`, which mnemonics, live-in labels and the kinds of edges satisfy; the same holds for the rows of `RefinementMeaning`.
- Reschedule.Reschedule: the docstring promises a uniform choice; the model leaves the draw open and says nothing about probabilities.
- Schedules.ReschedulingPreservesMeaning: execution is any function that reads and writes what the instruction declares; that the declared effects are those of RV64, program-counter-relative results and the effect of a taken branch are not modelled.
- DagGraph.BuildDagGraph: the numbering of live-in nodes follows an open order of implicit reads, where the source sorts them; isomorphism does not see it.
- Period.SmallestPeriod: the empty sequence is excluded, as the source fails on it.
- Renaming.AlphaDecides: mnemonics hold no opening parenthesis.
- AlphaMotifs.ClosedAlphaMotifs: the order of the result, which follows dictionary order in the source, is left open.
- PatternCover.GreedyCover: the minimum number of uses is at least one, without which the source does not terminate; windows of each candidate have one length and ascending starts, as `windows` yields them. The cover is a set; the numpy array of the dashboard is the set of its true positions.
- Dashboard.CascadeRows: shares, uses per lemma and the printed pattern of a row are left out; they are quotients and renderings of what is there.
- Leverage.MotifLeverage: the widest placement and the example text of a bucket are left out.
- CallDepth.MaximumDepth: Python's recursion limit is not modelled, here and in `sccs`.
- BuildLoop.Builder.Build: a compilation is one open outcome; processes, logs, polling and cancellation of running compilations are not modelled. After a failure is raised the remaining workers may finish in the transition system, and nothing else happens.
- Manifest.Dependencies: files are read once; which sources exist and what they import is an input.
- TraceReduction.ReduceInstance: the input is the parsed trace; the snapshots at an entry are those of the executions there, which is what parsing records. Loads and the memory access summary are left out.

Parts of the repository without a model:

- ELF, DWARF and disassembly, JSON and TSV reading, HTML and Markdown rendering, servers, the QEMU plugin, Nix files: input, output and libraries.
- `partition` and `make_graph`: block boundaries from mnemonics; easy, and indirect calls are by design incomplete there.
- `alpha_keys`, the permutation nulls and p-values: exact only up to hash collisions or chance.
- `validate_dag_invariance`: it samples what the schedule-invariance rows prove.
- `inline_descendant_pcs`, instance identities and absorbed holes of the level manifest: naming policy over a tree.
- Pinned counts and addresses, registry validation, generated Lean text: tables.
