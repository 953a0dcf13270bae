# Verified models of Lokad.Utf8Regex

This project models the parts of the repository that carry an argument of their own and
proves, for all inputs, what that argument promises. `dafny verify dfyconfig.toml` checks it.

* **Anchored ASCII verifier** (`AsciiNfa`, `AsciiNfaGadgets`, `AsciiNfaCompiler`, `AsciiClosure`,
  `AsciiAlphabet`, `AsciiDfaRows`, `AsciiDfaCompiler`, `AsciiDfa`, `AsciiItems`, `AsciiLine`,
  `AsciiLineBuilder`, `AsciiDirectCompiler`, `AsciiLoopCompiler`, `AsciiAdmission`, `AsciiVerifier`,
  `AsciiSmallGraphs`, `AsciiLookahead`, `AsciiMisreadings`, `AsciiProgram`). A flat program of byte classes, loops and anchors is compiled
  to a table, either directly by one of two kernels or through a nondeterministic graph that is
  made deterministic over a split alphabet; the table is then run. `AsciiVerifier.Compile` says for
  every program which way it takes, when it is refused, when the compiler fails, and when the table
  decides the steps, the reasons being told from the steps alone as well; `AsciiProgram.TryMatch` returns the longest length that such a table, and so
  the steps themselves, take. The work charged against the ceiling is part of the contracts.
* **Scalar tables** (`SortedLists`, `CaseTables`, `ScalarIntervals`). The generator of the case
  and class tables, together with the lookups it emits, for every lowercase map, extra-case
  table and predicate.
* **UTF-8 scanners and coordinates** (`Utf8`, `Utf8Scanners`, `Coordinates`, `ByteControl`,
  `ScalarIndex`). UTF-8 follows sections 3 and 4 of RFC 3629, UTF-16 section 2.1 of RFC 2781.
* **Result checksum** (`Words`, `Checksum`, `RangeSink`, `ResultProducers`). The 64-bit FNV-1a
  of section 2 of draft-eastlake-fnv over a tagged serialization, its inverse, and the two
  independent producers that are compared with it.
* **Paired qualification** (`InterleavedPair`, `Calibration`, `OrderStatistics`,
  `PairedStatistics`, `Qualification`). Clocks, actions and random streams are arbitrary
  functions; logarithm and exponential are arbitrary functions too, and only the lemmas about
  published ratios ask that they be monotone and mutually inverse.
* **A printer and two selectors** (`Replacement`, `ProcessorMasks`).

`Common` holds what several modules share.

## What came out

* The native and the managed checksum are meant to agree for equal results. They do, with one
  exception: a program that may throw on a deferred lookaround reset reports that there are more
  matches as soon as the destination is full, so for `MatchMany` with exactly eight matches the
  checksums (and the range sinks) differ. `ResultProducers.ChecksumsAgreeIff` and
  `ResultProducers.SinksAgreeIff` state the exact condition, `ResultProducers.EightMatchesDisagree`
  gives the matches.
* The direct kernel of the ASCII verifier compares a loop only with the next class. Two loops that
  come to stand on one state are therefore taken in any order: `^a*b*c$` accepts `bac`
  (`AsciiMisreadings.TwoLoopsMisread`), and `^a*b*a$` ends in an exception
  (`AsciiMisreadings.TwoLoopsClash`). `AsciiLine.LineDecidesIff` states for all programs when the
  table is right: if and only if no state keeps two loops that take anything, or some class before
  the Accept has no bytes at all. `AsciiLookahead.LookaheadSuffices` gives a condition under which
  neither happens.
* Declining is not only a matter of size: `AsciiDfaCompiler.BuildDfa` declines exactly for too many
  reachable sets, too many moves, or too much work, and the last reason is independent of the others
  (`AsciiDfaCompiler.CostAloneDeclines`).
* A program of up to 400 steps is refused only for reasons that can be read off it
  (`AsciiAdmission.MayBeDeclined`); a program with up to six graph states never is
  (`AsciiSmallGraphs.SmallProgramIsAdmitted`).
* A closed loop whose maximum is below its minimum still runs its minimum: the graph's meaning
  of such a step is exactly the minimum number of repetitions (`LoopCount`).

## Form

Source code that updates variables is a method with its loop, and source objects that update
their fields are classes (`Checksum.Builder`, `ScalarIndex.Cursor`, `AsciiNfaCompiler.Builder`,
`AsciiLineBuilder.Buffers`, and the oracles `InterleavedPair.Clock` and `Action`). The bootstrap fills and sorts its arrays
in place. Specifications are functions beside them. Ghost parameters of a method (labels of
graph states, the steps a program stands for) carry the meaning that its contract speaks of.

## Model

| member | source | states |
|---|---|---|
| `AsciiNfaCompiler.CompileNfa` | src/Lokad.Utf8Regex.Pcre2/Pcre2AsciiDfaVerifierProgram.NfaConstruction.cs:49-93 | A graph is returned exactly when the steps are supported (a beginning before anything consumes, an end just before the final Accept, no class declared empty, an Accept present), need at most 2048 states and do not charge past the ceiling; it is then the one graph of the steps (GraphOf), accepts exactly the byte strings they consume up to the Accept, and carries their anchors |
| `AsciiNfaCompiler.Builder.TryAppendNfaStep` | src/Lokad.Utf8Regex.Pcre2/Pcre2AsciiDfaVerifierProgram.cs:477-505 | One step appended: exact condition, exact graph and exact charge, with the new state standing for the steps so far |
| `AsciiNfaCompiler.Builder.AppendOptionalCopies` | src/Lokad.Utf8Regex.Pcre2/Pcre2AsciiDfaVerifierProgram.cs:524-529 | The optional copies of a closed loop, each with its way to the exit |
| `AsciiNfaCompiler.Builder.AddState` | src/Lokad.Utf8Regex.Pcre2/Pcre2AsciiDfaVerifierProgram.cs:541-552 | Adds one state without edges and charges one unit; declines exactly when there are already 2048 or the ceiling is passed |
| `AsciiNfaCompiler.Builder.AppendSet` | src/Lokad.Utf8Regex.Pcre2/Pcre2AsciiDfaVerifierProgram.cs:534-539 | One new state, reached from the current one by the set; declines exactly when the graph is full or the ceiling is passed |
| `AsciiNfaCompiler.Builder.AppendLoop` | src/Lokad.Utf8Regex.Pcre2/Pcre2AsciiDfaVerifierProgram.cs:507-532 | For every minimum and maximum, open-ended or closed (a maximum below the minimum included), the exit state stands for everything consumed so far followed by one admissible number of repetitions; exact graph, state count, charge and decline condition |
| `AsciiNfaCompiler.Builder.AppendCopies` | src/Lokad.Utf8Regex.Pcre2/Pcre2AsciiDfaVerifierProgram.cs:510-514 | The mandatory copies: the last state stands for exactly the minimum number of repetitions |
| `AsciiNfaCompiler.Builder.AppendMatch` | src/Lokad.Utf8Regex.Pcre2/Pcre2AsciiDfaVerifierProgram.cs:494-502 | One class consumed: the new state stands for the steps up to and including this one |
| `AsciiNfaGadgets.SetGadget` | src/Lokad.Utf8Regex.Pcre2/Pcre2AsciiDfaVerifierProgram.cs:534-539 | Adding a state and a transition keeps every state sound and complete for the words it stands for |
| `AsciiNfaGadgets.OpenLoopIsSound` | src/Lokad.Utf8Regex.Pcre2/Pcre2AsciiDfaVerifierProgram.cs:515-523 | The cycle of an open-ended loop adds no word that its states do not stand for |
| `AsciiNfaGadgets.OpenLoopIsComplete` | src/Lokad.Utf8Regex.Pcre2/Pcre2AsciiDfaVerifierProgram.cs:515-523 | Every number of repetitions of an open-ended loop is reached in the graph |
| `AsciiNfaGadgets.LoopStartArrives` | src/Lokad.Utf8Regex.Pcre2/Pcre2AsciiDfaVerifierProgram.cs:518-522 | Every run longer than the minimum goes round the cycle once more and is back at the loop's start |
| `AsciiNfaGadgets.ClosedExitIsComplete` | src/Lokad.Utf8Regex.Pcre2/Pcre2AsciiDfaVerifierProgram.cs:523-530 | Every admissible repetition count of a closed loop has an exit edge, so the exit is reached by all of them |
| `AsciiNfa.ArrivalIsDenoted` | src/Lokad.Utf8Regex.Pcre2/Pcre2AsciiDfaVerifierProgram.cs:507-552 | In a soundly labelled graph a state is only reached by byte strings that its label stands for |
| `AsciiNfa.ArrivalSurvives` | src/Lokad.Utf8Regex.Pcre2/Pcre2AsciiDfaVerifierProgram.cs:507-539 | Adding edges to a graph loses no run |
| `AsciiClosure.ComputeClosure` | src/Lokad.Utf8Regex.Pcre2/Pcre2AsciiDfaVerifierProgram.GraphConstruction.cs:130-167 | The strictly sorted list of exactly the states that empty moves reach from the given ones, cycles included; it is refused exactly when one unit for each pending state and each empty move exceeds the ceiling, whatever the order of the worklist |
| `AsciiClosure.VisitedIsClosed` | src/Lokad.Utf8Regex.Pcre2/Pcre2AsciiDfaVerifierProgram.GraphConstruction.cs:139-151 | When nothing is pending, any number of empty moves from a visited state ends in a visited state |
| `AsciiAlphabet.SplitClasses` | src/Lokad.Utf8Regex.Pcre2/Pcre2AsciiDfaVerifierProgram.GraphConstruction.cs:52-70 | Splitting disjoint classes along one more set: the result is disjoint, without empty classes, covers what was covered plus the set, lies inside or outside the set class by class, and still does so for every earlier set |
| `AsciiAlphabet.CutClass` | src/Lokad.Utf8Regex.Pcre2/Pcre2AsciiDfaVerifierProgram.GraphConstruction.cs:58-68 | One cut keeps the classes disjoint and non-empty, their cover, and what is left of the set |
| `AsciiAlphabet.NothingRemains` | src/Lokad.Utf8Regex.Pcre2/Pcre2AsciiDfaVerifierProgram.GraphConstruction.cs:68-68 | Leaving the loop early, once the set is used up, changes nothing: the remaining classes share no byte with it |
| `AsciiDfaRows.SplitAlphabet` | src/Lokad.Utf8Regex.Pcre2/Pcre2AsciiDfaVerifierProgram.GraphConstruction.cs:42-72 | The classes of one state set are split along all of its transitions and cover exactly their bytes |
| `AsciiDfaRows.Destinations` | src/Lokad.Utf8Regex.Pcre2/Pcre2AsciiDfaVerifierProgram.GraphConstruction.cs:78-87 | Exactly the targets of the transitions that share a byte with the class |
| `AsciiDfaRows.ClosureIsMove` | src/Lokad.Utf8Regex.Pcre2/Pcre2AsciiDfaVerifierProgram.GraphConstruction.cs:75-88 | Because no class straddles a transition, the closure of its destinations is the set of states reached on each byte of the class |
| `AsciiDfaCompiler.BuildDfa` | src/Lokad.Utf8Regex.Pcre2/Pcre2AsciiDfaVerifierProgram.GraphConstruction.cs:11-128 | The tables simulate the graph (states are distinct reachable sets, edges are moves, every move has an edge); and the construction declines if and only if the graph has more than 256 reachable non-empty state sets, or more than 4096 pairs of them joined by a move, or the start closure and the rows of some reachable sets charge past the ceiling of 1,048,576 steps |
| `AsciiDfaCompiler.NotTooCostly` | src/Lokad.Utf8Regex.Pcre2/Pcre2AsciiDfaVerifierProgram.NfaConstruction.cs:9-15 | A table whose rows were paid for shows that no choice of reachable sets charges more |
| `AsciiDfaCompiler.RowsChargesOfSome` | src/Lokad.Utf8Regex.Pcre2/Pcre2AsciiDfaVerifierProgram.GraphConstruction.cs:39-117 | The charge of a row depends on its set of states alone, so rows of some of the states charge no more than the whole table |
| `AsciiDfaCompiler.AddClass` | src/Lokad.Utf8Regex.Pcre2/Pcre2AsciiDfaVerifierProgram.GraphConstruction.cs:75-112 | One class of a row: the target found or added, the edge shared or added, and exactly the charge of that class; otherwise the graph is declined for one of the three reasons |
| `AsciiDfaCompiler.CostAloneDeclines` | src/Lokad.Utf8Regex.Pcre2/Pcre2AsciiDfaVerifierProgram.NfaConstruction.cs:9-15 | A graph with one reachable set and no move that is declined for its cost alone: the third reason is not contained in the others |
| `AsciiDfaCompiler.EdgeMerged` | src/Lokad.Utf8Regex.Pcre2/Pcre2AsciiDfaVerifierProgram.GraphConstruction.cs:102-106 | Sharing an edge between classes with the same destination keeps the table right |
| `AsciiDfaCompiler.NotTooLarge` | src/Lokad.Utf8Regex.Pcre2/Pcre2AsciiDfaVerifierProgram.GraphConstruction.cs:93-112 | A table within both limits proves that the graph is within them: each reachable set is a state and each live move an edge |
| `AsciiDfaCompiler.ReachableIsState` | src/Lokad.Utf8Regex.Pcre2/Pcre2AsciiDfaVerifierProgram.GraphConstruction.cs:92-101 | Every reachable non-empty set of states of the graph is a state of the table |
| `AsciiVerifier.TryReadAnchors` | src/Lokad.Utf8Regex.Pcre2/Pcre2AsciiDfaVerifierProgram.NfaConstruction.cs:26-47 | True exactly when there is at most one beginning, before anything that consumes, and an end only just before a final Accept, and the steps are not more than the ceiling |
| `AsciiVerifier.Compile` | src/Lokad.Utf8Regex.Pcre2/Pcre2AsciiDfaVerifierProgram.cs:81-121 | For every program of steps a table, a refusal or the exception for overlapping edges, each under its exact condition in terms of the way taken; and in terms of the steps alone: it is refused only for anchors out of place, a missing Accept, more than 400 steps, a line of more than 255 states, or, where only the graph is left, a class declared empty, more than 2048 states, 256 reachable sets or 4096 moves, or too much work; overlapping edges come only of two steps that overlap; the table decides the steps, unless they are taken directly and two loops stand on one state |
| `AsciiVerifier.RoutesMean` | src/Lokad.Utf8Regex.Pcre2/Pcre2AsciiDfaVerifierProgram.cs:81-121 | Each way told from the steps alone: loops between both anchors go by the first kernel; of the others, those whose every step is taken directly by the second, and all that are left by the graph |
| `AsciiVerifier.AdmittedLeadsOn` | src/Lokad.Utf8Regex.Pcre2/Pcre2AsciiDfaVerifierProgram.cs:81-121 | A program that meets none of the stated reasons is not refused, and if its way is the graph then the graph is compiled and made deterministic |
| `AsciiAdmission.LoopKernel` | src/Lokad.Utf8Regex.Pcre2/Pcre2AsciiDfaVerifierProgram.cs:258-376 | The first kernel finishes on exactly the sequences of disjoint loops, and with up to 400 steps it never charges past the ceiling |
| `AsciiAdmission.DirectKernel` | src/Lokad.Utf8Regex.Pcre2/Pcre2AsciiDfaVerifierProgram.cs:126-256 | The second kernel finishes exactly where every step is taken directly, nothing overlaps and 255 states suffice; it fails only where two steps overlap; otherwise it leaves the steps to the graph or there are too many states |
| `AsciiAdmission.DirectKernelIsCheap` | src/Lokad.Utf8Regex.Pcre2/Pcre2AsciiDfaVerifierProgram.cs:126-256 | With up to 400 steps and 255 states the second kernel never charges past the ceiling |
| `AsciiAdmission.OverlapIff` | src/Lokad.Utf8Regex.Pcre2/Pcre2AsciiDfaVerifierProgram.cs:439-475 | An edge overlaps exactly when a byte of it belongs to an earlier loop that may be left out, with nothing passed for good in between |
| `AsciiSmallGraphs.SmallProgramIsAdmitted` | src/Lokad.Utf8Regex.Pcre2/Pcre2AsciiDfaVerifierProgram.cs:81-121 | Anchors in place, an Accept, no class declared empty, at most 400 steps and at most six graph states: such a program is never refused |
| `AsciiSmallGraphs.SmallIsNotTooLarge` | src/Lokad.Utf8Regex.Pcre2/Pcre2AsciiDfaVerifierProgram.GraphConstruction.cs:93-112 | Six states have at most 64 reachable sets and 4096 moves between them |
| `AsciiSmallGraphs.SmallIsNotTooCostly` | src/Lokad.Utf8Regex.Pcre2/Pcre2AsciiDfaVerifierProgram.NfaConstruction.cs:9-15 | Making such a graph deterministic stays below the ceiling, even after 400,000 units |
| `AsciiSmallGraphs.GraphIsLean` | src/Lokad.Utf8Regex.Pcre2/Pcre2AsciiDfaVerifierProgram.cs:477-552 | A compiled graph has fewer transitions than states and at most two empty moves for each state after the first |
| `AsciiSmallGraphs.LoopLeadsToGraph` | src/Lokad.Utf8Regex.Pcre2/Pcre2AsciiDfaVerifierProgram.cs:229-249 | A loop that the direct kernel cannot take (a minimum that is neither zero nor the maximum, or a closed end) leads to the graph, and the graph to a table |
| `AsciiSmallGraphs.SomeThenOneGoesByGraph` | src/Lokad.Utf8Regex.Pcre2/Pcre2AsciiDfaVerifierProgram.cs:229-249 | `^a+b$` is compiled by way of the graph |
| `AsciiLoopCompiler.TryCompileLoops` | src/Lokad.Utf8Regex.Pcre2/Pcre2AsciiDfaVerifierProgram.cs:258-376 | Applies exactly to loops without an upper end between both anchors, each taken at least once (the last one perhaps not) and disjoint from the one before; exact charges, and never an overlap |
| `AsciiLoopCompiler.LoopSequenceMeans` | src/Lokad.Utf8Regex.Pcre2/Pcre2AsciiDfaVerifierProgram.cs:258-330 | What such a sequence is, step by step: one to 255 loops without an upper end, of classes not declared empty, each disjoint from the one before and taken at least once, the last one perhaps not at all |
| `AsciiLoopCompiler.LoopTableDecides` | src/Lokad.Utf8Regex.Pcre2/Pcre2AsciiDfaVerifierProgram.cs:340-372 | The table of such loops always decides them |
| `AsciiDirectCompiler.TryCompileSequence` | src/Lokad.Utf8Regex.Pcre2/Pcre2AsciiDfaVerifierProgram.cs:140-253 | Ends exactly as the events of the steps say (going on, a table, giving up, overlapping edges, too large), with exact charges; a table is the line of states of the steps up to the Accept |
| `AsciiDirectCompiler.TryGetFirstTransitionSet` | src/Lokad.Utf8Regex.Pcre2/Pcre2AsciiDfaVerifierProgram.cs:386-397 | The class of the next step that consumes anything, unless it is declared empty, and the steps looked at |
| `AsciiDirectCompiler.AppendCopies` | src/Lokad.Utf8Regex.Pcre2/Pcre2AsciiDfaVerifierProgram.cs:216-226 | A fixed number of copies of a class: only the first can overlap a loop |
| `AsciiLineBuilder.Buffers.AddDeterministicTransition` | src/Lokad.Utf8Regex.Pcre2/Pcre2AsciiDfaVerifierProgram.cs:439-475 | An edge at the end of the last state's row; refused exactly for an overlap with that row, a full table or the ceiling, whichever comes first |
| `AsciiLineBuilder.Buffers.AppendDeterministicTransition` | src/Lokad.Utf8Regex.Pcre2/Pcre2AsciiDfaVerifierProgram.cs:401-437 | A new last state and the edge to it, with exact charges |
| `AsciiItems.WalkedIsConsumed` | src/Lokad.Utf8Regex.Pcre2/Pcre2AsciiDfaVerifierProgram.cs:229-243 | If no state keeps two loops, whatever leads along the line of states is consumed by the steps |
| `AsciiItems.LineMeansItemsIff` | src/Lokad.Utf8Regex.Pcre2/Pcre2AsciiDfaVerifierProgram.cs:229-243 | A line of states whose edges do not overlap means its classes and loops if and only if every loop stands alone or some class has no bytes |
| `AsciiItems.ItemsMean` | src/Lokad.Utf8Regex.Pcre2/Pcre2AsciiDfaVerifierProgram.cs:151-250 | The items of steps consume what the steps consume |
| `AsciiLine.LineDecidesIff` | src/Lokad.Utf8Regex.Pcre2/Pcre2AsciiDfaVerifierProgram.cs:171-188 | The exact condition, computed from the steps, under which the kernel's table decides them |
| `AsciiLookahead.LookaheadSuffices` | src/Lokad.Utf8Regex.Pcre2/Pcre2AsciiDfaVerifierProgram.cs:229-243 | If every loop that may be left out is followed by a class that is passed for good, the compiler does not fail and its table is right |
| `AsciiMisreadings.TwoLoopsMisread` | src/Lokad.Utf8Regex.Pcre2/Pcre2AsciiDfaVerifierProgram.cs:229-243 | `^a*b*c$`: every table the kernel makes of it takes the text bac, which the steps reject |
| `AsciiMisreadings.TwoLoopsGoByLine` | src/Lokad.Utf8Regex.Pcre2/Pcre2AsciiDfaVerifierProgram.cs:229-243 | `^a*b*c$` goes by the direct kernel |
| `AsciiMisreadings.TwoLoopsClash` | src/Lokad.Utf8Regex.Pcre2/Pcre2AsciiDfaVerifierProgram.cs:462-469 | `^a*b*a$` ends in the exception for overlapping edges |
| `AsciiProgram.FindTransition` | src/Lokad.Utf8Regex.Pcre2/Pcre2AsciiDfaVerifierProgram.Runtime.cs:64-80 | The target of the first edge of this state that contains the byte, or a negative number when none does |
| `AsciiDfa.EdgesAreDisjoint` | src/Lokad.Utf8Regex.Pcre2/Pcre2AsciiDfaVerifierProgram.GraphConstruction.cs:102-112 | Two edges of one state that share a byte are the same edge, so the order of the scan does not matter |
| `AsciiDfa.RunTracks` | src/Lokad.Utf8Regex.Pcre2/Pcre2AsciiDfaVerifierProgram.Runtime.cs:32-53 | After any text the run of a simulating table is in the state that holds exactly the states of the graph, or dead when the graph is in none |
| `AsciiDfa.SimulationDecides` | src/Lokad.Utf8Regex.Pcre2/Pcre2AsciiDfaVerifierProgram.GraphConstruction.cs:11-128 | A table that simulates a graph decides the steps the graph implements |
| `AsciiProgram.DeadStaysDead` | src/Lokad.Utf8Regex.Pcre2/Pcre2AsciiDfaVerifierProgram.Runtime.cs:45-45 | Once no edge is found, no longer text leads anywhere |
| `AsciiProgram.TryMatch` | src/Lokad.Utf8Regex.Pcre2/Pcre2AsciiDfaVerifierProgram.Runtime.cs:22-58 | For every table, input and start index: the greatest length the table takes under its anchors, a final newline counting as the end, and nothing for a start index outside the input; for all steps the table decides, this is their longest match |
| `AsciiProgram.TakesWhatMatches` | src/Lokad.Utf8Regex.Pcre2/Pcre2AsciiDfaVerifierProgram.Runtime.cs:22-58 | A table that decides the steps takes from every start index exactly the lengths the steps match with all anchors in place |
| `CaseTables.LowerPairs` | tools/generate-pythonre-scalar-case-data.py:31-32 | The pairs list, in ascending order, exactly the non-surrogate scalars that lowercasing changes, with their lowercase |
| `CaseTables.Invert` | tools/generate-pythonre-scalar-case-data.py:33-35 | The inverse map holds, for each lowercase value, itself and exactly the scalars that lower to it |
| `CaseTables.BuildGroups` | tools/generate-pythonre-scalar-case-data.py:36-41 | There is a group exactly for the keys of the inverse and the extra cases, each strictly sorted |
| `CaseTables.GatherMembers` | tools/generate-pythonre-scalar-case-data.py:38-40 | A group's members are the inverse sets of its key and of the key's extra cases |
| `CaseTables.GroupListsPartners` | tools/generate-pythonre-scalar-case-data.py:31-41 | Each group is the strictly sorted list of R and everything that lowers into R, for R the key and its extra cases |
| `CaseTables.FirstAppearancesKeepEachOnce` | tools/generate-pythonre-scalar-case-data.py:42-47 | Sharing stores every distinct group, each once |
| `CaseTables.SharePool` | tools/generate-pythonre-scalar-case-data.py:42-49 | Every offset and length still delimits its own group in the finished pool, whatever was appended later |
| `CaseTables.Compile` | tools/generate-pythonre-scalar-case-data.py:31-78 | For every lowercase map and extra-case table the emitted LowerUnicode returns, for every Unicode scalar, its lowercase, and every other number as it is; LiteralPartners, through binary search, offsets and pool, returns for every scalar the strictly sorted list of its partners, or nothing when it has none |
| `CaseTables.RepresentsScalars` | tools/generate-pythonre-scalar-case-data.py:31-78 | Tables that agree with the generator's own scan agree with the Unicode scalars as UTF-8 defines them, 0 to 10FFFF without the surrogates |
| `CaseTables.LookupLower` | tools/generate-pythonre-scalar-case-data.py:66-70 | The binary search in the sparse pairs agrees with the lowercase map on every scalar |
| `CaseTables.EmptyIffAlone` | tools/generate-pythonre-scalar-case-data.py:74-78 | Partners are empty if and only if the scalar is its own lowercase, has no extra cases, and no other scalar lowers to it |
| `CaseTables.ClassesPartition` | tools/generate-pythonre-scalar-case-data.py:36-41 | With idempotent lowercasing and a symmetric, transitive extra-case table, two scalars that share a partner have the same partners, and each belongs to its own |
| `CaseTables.DistinctGroupsAreDisjoint` | tools/generate-pythonre-scalar-case-data.py:36-41 | Under the same conditions two different groups share no scalar |
| `CaseTables.PoolHoldsEachScalarOnce` | tools/generate-pythonre-scalar-case-data.py:42-49 | Under the same conditions no scalar stands twice in the pool |
| `SortedLists.SortedListIsUnique` | tools/generate-pythonre-scalar-case-data.py:41-41 | A set has only one strictly sorted list, so a group used as a dictionary key stands for its set |
| `SortedLists.BinarySearch` | tools/generate-pythonre-scalar-case-data.py:66-78 | The position of the key, or a negative number exactly when it is absent |
| `ScalarIntervals.BuildEndpoints` | tools/generate-pythonre-scalar-case-data.py:116-126 | For every predicate the endpoints are strictly increasing, of even length, and denote exactly the accepted Unicode scalars from 128 on; the last run is closed by the sentinel step |
| `ScalarIntervals.Contains` | tools/generate-pythonre-scalar-case-data.py:101-113 | True exactly for the scalars the endpoints denote, after at most floor(log2 n) + 1 probes of n intervals |
| `ScalarIntervals.Classify` | tools/generate-pythonre-scalar-case-data.py:93-99 | The emitted test agrees with the ASCII test below 128 and, from there on, with the predicate on every Unicode scalar; nothing else is a member |
| `ScalarIntervals.EndpointsAreCanonical` | tools/generate-pythonre-scalar-case-data.py:116-126 | Two endpoint lists that denote the same scalars are equal |
| `ScalarIntervals.MaskByteBits` | tools/generate-pythonre-scalar-case-data.py:144-145 | Each bit of a mask byte is set exactly when its character is accepted |
| `ScalarIntervals.AsciiMaskDecides` | tools/generate-pythonre-scalar-case-data.py:144-145 | The sixteen mask bytes decide every ASCII character |
| `Utf8.DecodeInvertsEncode` | tools/generate-pythonre-capture-completion.py:125-137 | Decoding what was encoded gives the scalars back |
| `Utf8.EncodeInvertsDecode` | tools/generate-pythonre-capture-completion.py:125-137 | Whatever decodes is the encoding of its scalars: no second form is admitted (RFC 3629, sections 3 and 4) |
| `Utf8.CutAtBoundaries` | tools/generate-pythonre-capture-completion.py:128-135 | Cutting the bytes between two boundaries gives the encoding of the scalars between them |
| `Utf8.BoundariesIncrease` | tools/generate-pythonre-capture-completion.py:128-135 | Byte offsets grow strictly with the scalar index |
| `Utf8Scanners.TryRetreatScalar` | bench/Lokad.Utf8Regex.Benchmarks/BenchmarkInspectReporter.Pcre2.cs:303-318 | Moves exactly when the position is not zero, to the nearest earlier byte that is no continuation byte, or to the start when there is none |
| `Utf8Scanners.RetreatLandsOnScalarStart` | bench/Lokad.Utf8Regex.Benchmarks/BenchmarkInspectReporter.Pcre2.cs:303-318 | On well-formed text a retreat from a boundary lands on the previous one, and decoding forward from there returns the scalar and the way back |
| `Utf8Scanners.RetreatsVisitEveryBoundary` | bench/Lokad.Utf8Regex.Benchmarks/BenchmarkInspectReporter.Pcre2.cs:303-318 | Repeated retreats from the k-th boundary visit the boundaries k - 1 down to 0, each once |
| `Utf8Scanners.ReadStretch` | bench/Lokad.Utf8Regex.Benchmarks/BenchmarkInspectReporter.Pcre2.cs:274-294 | The inner loop: how far back one token's run reaches and how many checks that takes |
| `Utf8Scanners.StretchMeans` | bench/Lokad.Utf8Regex.Benchmarks/BenchmarkInspectReporter.Pcre2.cs:274-294 | A stretch of n scalars that the token matches one by one takes n checks, and one more unless it reaches the start |
| `Utf8Scanners.CountRunChecks` | bench/Lokad.Utf8Regex.Benchmarks/BenchmarkInspectReporter.Pcre2.cs:266-297 | The checks of one hit, and their bound by the steps back to the start plus the number of tokens, for any matcher and any bytes |
| `Utf8Scanners.WalkIsAmortized` | bench/Lokad.Utf8Regex.Benchmarks/BenchmarkInspectReporter.Pcre2.cs:266-300 | Failed checks are paid by tokens and successful ones by steps back: their sum bounds the walk |
| `Utf8Scanners.WalkBoundOnText` | bench/Lokad.Utf8Regex.Benchmarks/BenchmarkInspectReporter.Pcre2.cs:266-300 | On valid UTF-8 a hit after k scalars costs at most k checks plus the number of tokens |
| `Utf8Scanners.CountLeadingRunFilterChecks` | bench/Lokad.Utf8Regex.Benchmarks/BenchmarkInspectReporter.Pcre2.cs:251-301 | The total is the sum of the checks of every hit, and at most the steps back of all hits plus one check for each token and hit |
| `Utf8Scanners.TotalBoundOnText` | bench/Lokad.Utf8Regex.Benchmarks/BenchmarkInspectReporter.Pcre2.cs:251-301 | On valid UTF-8 the total is at most the scalars before all hits plus the number of tokens times the number of hits |
| `Utf8Scanners.CountWindowLiteralHits` | bench/Lokad.Utf8Regex.Benchmarks/BenchmarkInspectReporter.Pcre2.cs:320-345 | The number of all positions where the literal occurs, overlapping ones included; zero for an empty literal |
| `Coordinates.Snapshot` | tools/generate-pythonre-capture-completion.py:125-137 | Every group row carries its code-point, byte and UTF-16 coordinates, and cutting either encoding there gives the encoding of the group's text |
| `Coordinates.ProjectionIsFaithful` | tools/generate-pythonre-capture-completion.py:128-135 | The projection of one group, matched or not, is faithful in both encodings |
| `Coordinates.RepairInvertsEncode` | tools/generate-pythonre-capture-completion.py:128-135 | UTF-16 encoding (RFC 2781, section 2.1) is read back as the same scalars |
| `Coordinates.Boundaries16Increase` | tools/generate-pythonre-capture-completion.py:128-135 | UTF-16 offsets grow strictly with the scalar index |
| `Coordinates.Cut16AtBoundaries` | tools/generate-pythonre-capture-completion.py:128-135 | Cutting the UTF-16 units between two boundaries gives the units of the scalars between them |
| `Coordinates.OffsetsCompared` | tools/generate-pythonre-capture-completion.py:128-135 | A UTF-16 offset never exceeds the byte offset, and they are equal exactly after an ASCII prefix |
| `Coordinates.CoordinatesAgreeIffAscii` | tools/generate-pythonre-capture-completion.py:128-135 | The two coordinates agree at every boundary, or at the end alone, if and only if the text is ASCII |
| `ByteControl.GatesAgree` | bench/Lokad.Utf8Regex.Benchmarks/PythonReBenchmarkCatalog.cs:580-610 | The eligibility gate on the encoded bytes and the independent expectation on the string give the same verdict for every case, lone surrogates included |
| `ByteControl.VerdictMeans` | bench/Lokad.Utf8Regex.Benchmarks/PythonReBenchmarkCatalog.cs:580-610 | Each verdict by its reason: one of five operations, seven-bit pattern and subject, neither of two flags |
| `ByteControl.EligibleCoordinatesAreIdentical` | bench/Lokad.Utf8Regex.Benchmarks/PythonReBenchmarkCoverage.cs:182-203 | In an eligible case byte, UTF-16 and scalar coordinates are the same number everywhere |
| `ByteControl.InputWidthClass` | bench/Lokad.Utf8Regex.Benchmarks/PythonReBenchmarkCoverage.cs:205-245 | Lists, in ascending order, exactly the encoded widths that occur in the input |
| `ScalarIndex.BoundaryHasScalarPosition` | src/Lokad.Utf8Regex.PythonRe/Utf8PythonMatchCursor.Coordinates.cs:110-116 | The k-th scalar boundary of a text has scalar position k |
| `ScalarIndex.Cursor.constructor` | src/Lokad.Utf8Regex.PythonRe/Utf8PythonMatchCursor.Coordinates.cs:88-108 | A fresh cursor has no index yet |
| `ScalarIndex.Cursor.CountScalarStarts` | src/Lokad.Utf8Regex.PythonRe/Utf8PythonMatchCursor.Coordinates.cs:118-133 | The block-wise count is the number of bytes that are no continuation bytes |
| `ScalarIndex.Cursor.EnsureScalarPrefixes` | src/Lokad.Utf8Regex.PythonRe/Utf8PythonMatchCursor.Coordinates.cs:88-108 | Builds the sampled prefix counts once and leaves an existing index as it is |
| `ScalarIndex.Cursor.ScalarOffset` | src/Lokad.Utf8Regex.PythonRe/Utf8PythonMatchCursor.Coordinates.cs:110-116 | A sampled count plus a short scan gives the scalar position of any byte offset |
| `Checksum.StepIsBijective` | bench/Lokad.Utf8Regex.Benchmarks/Pcre2BenchmarkResultChecksum.cs:59-63 | For each byte the step of the hash is a bijection on 64-bit states, with its inverse given |
| `Checksum.SuffixKeepsStatesApart` | bench/Lokad.Utf8Regex.Benchmarks/Pcre2BenchmarkResultChecksum.cs:59-63 | Different states stay different, and equal ones equal, under any number of further bytes |
| `Checksum.OneByteAlwaysShows` | bench/Lokad.Utf8Regex.Benchmarks/Pcre2BenchmarkResultChecksum.cs:59-63 | Two streams that differ in one byte only always have different checksums |
| `Checksum.DecodeInvertsSerialize` | bench/Lokad.Utf8Regex.Benchmarks/Pcre2BenchmarkResultChecksum.cs:25-57 | Operation, ranges of any number, result count and flag are recovered from the bytes, negative numbers included |
| `Checksum.SerializeInvertsDecode` | bench/Lokad.Utf8Regex.Benchmarks/Pcre2BenchmarkResultChecksum.cs:25-57 | Only the serialization of a result decodes to it |
| `Checksum.SerializeIsLaidOut` | bench/Lokad.Utf8Regex.Benchmarks/Pcre2BenchmarkResultChecksum.cs:25-57 | Every byte of the serialization by its position: version, operation, nine bytes for each range, end tag, both counts and the flag, all numbers with the lowest byte first |
| `Checksum.HashIsFnv1a` | bench/Lokad.Utf8Regex.Benchmarks/Pcre2BenchmarkResultChecksum.cs:19-63 | Offset basis, prime and the published hash of a single zero byte |
| `Checksum.IsMoreAlwaysShows` | bench/Lokad.Utf8Regex.Benchmarks/Pcre2BenchmarkResultChecksum.cs:41-48 | Results that differ only in whether there are more have different checksums |
| `Checksum.OperationAlwaysShows` | bench/Lokad.Utf8Regex.Benchmarks/Pcre2BenchmarkResultChecksum.cs:25-31 | Results that differ only in the operation have different checksums |
| `Checksum.Builder.constructor` | bench/Lokad.Utf8Regex.Benchmarks/Pcre2BenchmarkResultChecksum.cs:25-31 | The builder starts as the checksum of the operation and no ranges |
| `Checksum.Builder.AddRange` | bench/Lokad.Utf8Regex.Benchmarks/Pcre2BenchmarkResultChecksum.cs:33-39 | The state follows the list of ranges added so far |
| `Checksum.Builder.Complete` | bench/Lokad.Utf8Regex.Benchmarks/Pcre2BenchmarkResultChecksum.cs:41-48 | The value is the checksum of the serialized operation, all added ranges, the count and the flag |
| `Checksum.Builder.AppendInt32` | bench/Lokad.Utf8Regex.Benchmarks/Pcre2BenchmarkResultChecksum.cs:50-57 | Appends the four little-endian bytes of the signed number |
| `Checksum.Builder.AppendByte` | bench/Lokad.Utf8Regex.Benchmarks/Pcre2BenchmarkResultChecksum.cs:59-63 | Applies one step of the hash |
| `RangeSink.AddAllSeparates` | bench/Lokad.Utf8Regex.Benchmarks/Pcre2BenchmarkResultChecksum.cs:8-14 | Adding the same ranges keeps different 32-bit sinks different |
| `RangeSink.SinkOfOne` | bench/Lokad.Utf8Regex.Benchmarks/Pcre2BenchmarkResultChecksum.cs:8-14 | The order in which start, length, count and flag are mixed in, and the factor, by sinks of a single operand |
| `RangeSink.OneCoordinateAlwaysShows` | bench/Lokad.Utf8Regex.Benchmarks/Pcre2BenchmarkResultChecksum.cs:8-14 | A stream in which one coordinate of one range differs always ends in a different sink |
| `RangeSink.CompleteSeparates` | bench/Lokad.Utf8Regex.Benchmarks/Pcre2BenchmarkResultChecksum.cs:8-14 | Completion keeps sinks apart and tells whether there are more |
| `ResultProducers.CountMatches` | bench/Lokad.Utf8Regex.Benchmarks/PcreNetNativeBenchmarkBaseline.cs:241-250 | The number of matches in 32-bit arithmetic |
| `ResultProducers.ComputeRangeChecksum` | bench/Lokad.Utf8Regex.Benchmarks/PcreNetNativeBenchmarkBaseline.cs:272-292 | The checksum of exactly the first min(n, limit) ranges, of their count, and of whether n exceeds the limit |
| `ResultProducers.NativeChecksum` | bench/Lokad.Utf8Regex.Benchmarks/PcreNetNativeBenchmarkBaseline.cs:192-211 | The checksum of the native result of each operation; none for an unsupported one |
| `ResultProducers.AddSpans` | bench/Lokad.Utf8Regex.Benchmarks/BenchmarkInspectReporter.Pcre2Native.cs:471-514 | Adds every managed match as start and length, in order, and counts them |
| `ResultProducers.RangeReachesEnd` | bench/Lokad.Utf8Regex.Benchmarks/BenchmarkInspectReporter.Pcre2Native.cs:471-514 | The length that is added reaches the end of the match, modulo 2^32 |
| `ResultProducers.ManagedChecksum` | bench/Lokad.Utf8Regex.Benchmarks/BenchmarkInspectReporter.Pcre2Native.cs:471-514 | The checksum of the managed result of each operation; none for an unsupported one |
| `ResultProducers.ChecksumsAgreeIff` | src/Lokad.Utf8Regex.Pcre2/Utf8Pcre2Regex.cs:965-1010 | For engines with the same matches the two checksums agree if and only if it is not a MatchMany of exactly eight matches by a program that reports more whenever the destination is full |
| `ResultProducers.NativeAudit` | bench/Lokad.Utf8Regex.Benchmarks/PcreNetNativeBenchmarkBaseline.cs:213-227 | Count, enumerated count and checksum of the whole native stream |
| `ResultProducers.ManagedAudit` | bench/Lokad.Utf8Regex.Benchmarks/BenchmarkInspectReporter.Pcre2Native.cs:284-303 | Count, enumerated count and checksum of the whole managed stream |
| `ResultProducers.CheckProgression` | bench/Lokad.Utf8Regex.Benchmarks/BenchmarkInspectReporter.Pcre2Native.cs:246-268 | Stable if and only if all three audits of both engines equal the expected one and its two counts agree |
| `ResultProducers.SameAnswersAreStable` | bench/Lokad.Utf8Regex.Benchmarks/BenchmarkInspectReporter.Pcre2Native.cs:246-268 | Engines that keep answering alike are never reported unstable, for streams of any length |
| `ResultProducers.StableCounts` | bench/Lokad.Utf8Regex.Benchmarks/BenchmarkInspectReporter.Pcre2Native.cs:246-268 | A stable report means equal checksums in all three repeats, and for streams that fit 32 bits equally many matches |
| `ResultProducers.ComputeRangeSink` | bench/Lokad.Utf8Regex.Benchmarks/PcreNetNativeBenchmarkBaseline.cs:252-270 | The sink of the first min(n, limit) ranges, their count and whether there are more |
| `ResultProducers.ExecuteMatchManyRangeSink` | bench/Lokad.Utf8Regex.Benchmarks/BenchmarkInspectReporter.Pcre2.cs:1109-1123 | The sink of what MatchMany returns for eight slots |
| `ResultProducers.SinksAgreeIff` | bench/Lokad.Utf8Regex.Benchmarks/BenchmarkInspectReporter.Pcre2.cs:1109-1123 | For engines with the same matches the native and the MatchMany sink agree under the same condition as the checksums |
| `ResultProducers.EightMatchesDisagree` | src/Lokad.Utf8Regex.Pcre2/Utf8Pcre2Regex.cs:988-999 | Eight concrete matches on which the engines agree in every answer, while both the checksums and the sinks differ |
| `InterleavedPair.SlicesMakeTheWhole` | bench/Lokad.Utf8Regex.Benchmarks/BenchmarkInspectReporter.Pcre2Qualification.cs:564-565 | The slices add up to the whole, differ by one at most, and the larger ones come first |
| `InterleavedPair.MeasureBatch` | bench/Lokad.Utf8Regex.Benchmarks/BenchmarkInspectReporter.Pcre2Qualification.cs:515-525 | Runs the action exactly its count between two clock readings and returns the xor of its results |
| `InterleavedPair.XorOfCallsSplits` | bench/Lokad.Utf8Regex.Benchmarks/BenchmarkInspectReporter.Pcre2Qualification.cs:527-562 | The xor of a run is the xor of its parts, so slices accumulate the uninterrupted sink |
| `InterleavedPair.MeasurePair` | bench/Lokad.Utf8Regex.Benchmarks/BenchmarkInspectReporter.Pcre2Qualification.cs:527-562 | For every clock, actions, counts and starting lane: the lanes alternate as scheduled, each action runs exactly its batch count, each sink is that lane's uninterrupted xor, each lane is charged exactly the sum over its own slices; nothing runs for an empty batch |
| `InterleavedPair.RunSlice` | bench/Lokad.Utf8Regex.Benchmarks/BenchmarkInspectReporter.Pcre2Qualification.cs:536-561 | One slice takes a lane from its k-th to its next state and reads the clock twice |
| `InterleavedPair.LanesStayLevel` | bench/Lokad.Utf8Regex.Benchmarks/BenchmarkInspectReporter.Pcre2Qualification.cs:536-561 | At every moment the lane that started has finished the same number of slices as the other one, or one more |
| `InterleavedPair.LanesShareTime` | bench/Lokad.Utf8Regex.Benchmarks/BenchmarkInspectReporter.Pcre2Qualification.cs:536-561 | Together the lanes are charged exactly the time measured, none of it twice |
| `InterleavedPair.MeasuredTimeIsBounded` | bench/Lokad.Utf8Regex.Benchmarks/BenchmarkInspectReporter.Pcre2Qualification.cs:515-562 | On a clock that never goes back the measured time is at most the time between the first and the last reading |
| `Calibration.GrowProbe` | bench/Lokad.Utf8Regex.Benchmarks/BenchmarkInspectReporter.Pcre2Qualification.cs:453-513 | For every clock at most 28 probes, every batch within 1 and 100,000,000; each probe follows one shorter than two milliseconds, and is at least twice and at most 32 times as large, or the maximum |
| `Calibration.GrownMeans` | bench/Lokad.Utf8Regex.Benchmarks/BenchmarkInspectReporter.Pcre2Qualification.cs:453-478 | The factor of growth is the least from 2 to 32 that makes two milliseconds of the last probe, or 32 if none does |
| `Calibration.RescaledMeans` | bench/Lokad.Utf8Regex.Benchmarks/BenchmarkInspectReporter.Pcre2Qualification.cs:453-513 | The rescaled batch would have taken forty milliseconds to half an operation, unless a bound cuts it off |
| `Calibration.ConfirmedUnlessSettled` | bench/Lokad.Utf8Regex.Benchmarks/BenchmarkInspectReporter.Pcre2Qualification.cs:480-512 | A batch that takes between thirty and fifty milliseconds, or no time, or is its own correction is kept; any other is corrected while a confirmation is left |
| `Calibration.DoublingsBounded` | bench/Lokad.Utf8Regex.Benchmarks/BenchmarkInspectReporter.Pcre2Qualification.cs:453-513 | A batch that has doubled n times and is still below the maximum has n < 27, and one more doubling is within twice the batch |
| `Calibration.CalibrateBatch` | bench/Lokad.Utf8Regex.Benchmarks/BenchmarkInspectReporter.Pcre2Qualification.cs:453-513 | On any clock the batch is what at most two confirmations leave of the size that the last growth probe suggests; result and probes within bounds; on a clock of constant cost the result depends on the cost alone |
| `Calibration.ConfirmationSettles` | bench/Lokad.Utf8Regex.Benchmarks/BenchmarkInspectReporter.Pcre2Qualification.cs:480-512 | On any clock the batch that is left was measured inside the window, or took no time, or is its own correction, or else corrects the last probe allowed |
| `Calibration.SteadySampleHitsTarget` | bench/Lokad.Utf8Regex.Benchmarks/BenchmarkInspectReporter.Pcre2Qualification.cs:453-513 | On a clock of constant cost a calibrated sample lasts the target to half an operation, unless a bound on the batch cuts it off |
| `OrderStatistics.SortIsSortedPermutation` | bench/Lokad.Utf8Regex.Benchmarks/BenchmarkPairedStatistics.cs:5-17 | Sorting gives a sorted permutation |
| `OrderStatistics.SortIsMonotone` | bench/Lokad.Utf8Regex.Benchmarks/BenchmarkPairedStatistics.cs:32-66 | Raising values pointwise raises every order statistic |
| `OrderStatistics.SortedCopyIsUnique` | bench/Lokad.Utf8Regex.Benchmarks/BenchmarkPairedStatistics.cs:32-66 | Any sorted rearrangement is the sorted copy, so an in-place sort may be used |
| `OrderStatistics.SortedHasRank` | bench/Lokad.Utf8Regex.Benchmarks/BenchmarkPairedStatistics.cs:5-17 | Entry k of the sorted copy is the value with at most k values below it and more than k up to it, counted by position |
| `OrderStatistics.RankIsUnique` | bench/Lokad.Utf8Regex.Benchmarks/BenchmarkPairedStatistics.cs:5-17 | No other value has that rank |
| `OrderStatistics.SortOfIncreasingMap` | bench/Lokad.Utf8Regex.Benchmarks/BenchmarkPairedStatistics.cs:5-30 | Order statistics commute with increasing functions |
| `OrderStatistics.SortOfDecreasingMap` | bench/Lokad.Utf8Regex.Benchmarks/BenchmarkPairedStatistics.cs:5-30 | Order statistics are mirrored by decreasing functions |
| `PairedStatistics.Median` | bench/Lokad.Utf8Regex.Benchmarks/BenchmarkPairedStatistics.cs:5-17 | The value of the middle rank, or the mean of the values of the two middle ranks, ranks being counted in the sample itself; an error for an empty sample |
| `PairedStatistics.MedianIsMedian` | bench/Lokad.Utf8Regex.Benchmarks/BenchmarkPairedStatistics.cs:5-17 | The sorted-copy median has the middle rank, for every sample |
| `PairedStatistics.InterquartileSpread` | bench/Lokad.Utf8Regex.Benchmarks/BenchmarkPairedStatistics.cs:19-30 | The quotient of the values at the quartile ranks of any sample, ranks being counted in the sample itself; an error for an empty one, and a result of its own where the lower quartile is zero |
| `PairedStatistics.SpreadIsSpread` | bench/Lokad.Utf8Regex.Benchmarks/BenchmarkPairedStatistics.cs:19-30 | For positive values the two entries are those of the ranks a quarter and three quarters of the way up, rounded outwards |
| `PairedStatistics.SpreadAtLeastOne` | bench/Lokad.Utf8Regex.Benchmarks/BenchmarkPairedStatistics.cs:19-30 | The spread of positive values is never below one |
| `PairedStatistics.SpreadIgnoresUnit` | bench/Lokad.Utf8Regex.Benchmarks/BenchmarkPairedStatistics.cs:19-30 | The spread does not depend on the unit of time |
| `PairedStatistics.BootstrapMedianLogRatio` | bench/Lokad.Utf8Regex.Benchmarks/BenchmarkPairedStatistics.cs:32-66 | The bounds are resample medians, each the median of as many draws as there are values, taken one after the other; with n of them more than (n-1)/40 are at most the lower bound and at most (n-1)/40 are below it, and likewise for the upper bound from above; errors for an empty sample and for no resamples |
| `PairedStatistics.BootstrapCovers` | bench/Lokad.Utf8Regex.Benchmarks/BenchmarkPairedStatistics.cs:32-66 | The coverage of 95 percent, by counting resample medians, for every sample, stream of draws and number of resamples |
| `PairedStatistics.IntervalCovers` | bench/Lokad.Utf8Regex.Benchmarks/BenchmarkPairedStatistics.cs:60-65 | The two entries of any sorted list of n values leave at most (n-1)/40 of them outside on either side, and more than that at or beyond the bound |
| `PairedStatistics.FillMedians` | bench/Lokad.Utf8Regex.Benchmarks/BenchmarkPairedStatistics.cs:50-58 | Each entry of the array is the median of its own resample |
| `PairedStatistics.FillResample` | bench/Lokad.Utf8Regex.Benchmarks/BenchmarkPairedStatistics.cs:52-55 | Each entry of the array is drawn by the next random index |
| `PairedStatistics.BootstrapWithin` | bench/Lokad.Utf8Regex.Benchmarks/BenchmarkPairedStatistics.cs:32-66 | For every random stream: lower bound of the data <= Lower <= Upper <= upper bound of the data |
| `PairedStatistics.BootstrapIsMonotone` | bench/Lokad.Utf8Regex.Benchmarks/BenchmarkPairedStatistics.cs:32-66 | Raising log ratios pointwise lowers neither bound |
| `PairedStatistics.BootstrapShifts` | bench/Lokad.Utf8Regex.Benchmarks/BenchmarkPairedStatistics.cs:32-66 | Shifting all log ratios shifts both bounds by the same amount |
| `PairedStatistics.BootstrapMirrors` | bench/Lokad.Utf8Regex.Benchmarks/BenchmarkPairedStatistics.cs:32-66 | Swapping the lanes negates and exchanges the bounds |
| `PairedStatistics.OddMedianCommutes` | bench/Lokad.Utf8Regex.Benchmarks/BenchmarkPairedStatistics.cs:5-17 | The median of an odd sample commutes with increasing functions |
| `Qualification.CollectSamples` | bench/Lokad.Utf8Regex.Benchmarks/BenchmarkInspectReporter.Pcre2Qualification.cs:161-199 | All vectors have one entry per sample, lanes alternate from the chosen start, and each ratio is that of its two timings |
| `Qualification.MeasureSection` | bench/Lokad.Utf8Regex.Benchmarks/BenchmarkInspectReporter.Pcre2Qualification.cs:36-309 | A record is refused exactly below nine samples, and otherwise derived field by field from the collected vectors: times for one operation and for the batch, their ratios, and as order effect the median ratio of the samples that the managed lane began over that of the others |
| `Qualification.SelectedInOrder` | bench/Lokad.Utf8Regex.Benchmarks/BenchmarkInspectReporter.Pcre2Qualification.cs:207-218 | The values selected for a lane are exactly those at the positions where it went first, in order |
| `Qualification.SelectedEveryOther` | bench/Lokad.Utf8Regex.Benchmarks/BenchmarkInspectReporter.Pcre2Qualification.cs:207-218 | Of alternating samples these are the values at every other position, from the first or the second on |
| `Qualification.OrderEffectIs` | bench/Lokad.Utf8Regex.Benchmarks/BenchmarkInspectReporter.Pcre2Qualification.cs:207-218 | The order effect in terms of those positions and of medians by rank |
| `Qualification.MeasuredStatusFits` | bench/Lokad.Utf8Regex.Benchmarks/BenchmarkInspectReporter.Pcre2Qualification.cs:311-362 | What each status of a measured record says about its durations, spreads, order effect and interval |
| `Qualification.VerifyPair` | bench/Lokad.Utf8Regex.Benchmarks/BenchmarkInspectReporter.Pcre2Consistency.cs:24-116 | No error if and only if the record passes every check; then each stored ratio, the median ratio, the order effect and both spreads differ from the recomputed one by at most a trillionth of the larger of the two, and the status fits the samples; the only throw is a median over a lane that never went first |
| `Qualification.StaleIsRejected` | bench/Lokad.Utf8Regex.Benchmarks/BenchmarkInspectReporter.Pcre2Consistency.cs:62-116 | A derived record in which one stored ratio, the median ratio, the order effect or a spread is changed by more than a trillionth is never accepted |
| `Qualification.AcceptedMatchesSamples` | bench/Lokad.Utf8Regex.Benchmarks/BenchmarkInspectReporter.Pcre2Consistency.cs:24-116 | A record that passes agrees with its samples, in plain arithmetic |
| `Qualification.ConsistencyStatusFits` | bench/Lokad.Utf8Regex.Benchmarks/BenchmarkInspectReporter.Pcre2Consistency.cs:157-194 | What the verifier's own derivation of the status says |
| `Qualification.CheckAlternation` | bench/Lokad.Utf8Regex.Benchmarks/BenchmarkInspectReporter.Pcre2Consistency.cs:53-60 | No error exactly when the lanes alternate; otherwise the first place where they do not |
| `Qualification.AlternationBalances` | bench/Lokad.Utf8Regex.Benchmarks/BenchmarkInspectReporter.Pcre2Consistency.cs:46-60 | Alternating lanes are balanced to one sample, and only the lane of the last sample can be ahead |
| `Qualification.MeasuredRecordIsAccepted` | bench/Lokad.Utf8Regex.Benchmarks/BenchmarkInspectReporter.Pcre2Consistency.cs:24-116 | Every derived record passes every check of the independent verifier, although one side compares logarithms and the other ratios |
| `Qualification.QualifyAndVerify` | bench/Lokad.Utf8Regex.Benchmarks/BenchmarkInspectReporter.Pcre2Consistency.cs:24-116 | For every sample count from nine on, either starting lane and any positive timings, the verifier finds no error in the record produced |
| `Qualification.IntervalWithinRatios` | bench/Lokad.Utf8Regex.Benchmarks/BenchmarkInspectReporter.Pcre2Qualification.cs:201-296 | The published ratio interval lies between the least and the greatest paired ratio |
| `Qualification.UnanimousSamplesDecide` | bench/Lokad.Utf8Regex.Benchmarks/BenchmarkInspectReporter.Pcre2Qualification.cs:311-362 | A lane is called faster only if some sample is, and quiet samples that all lie within two percent are called equivalent |
| `Qualification.OddMedianRatioIsExact` | bench/Lokad.Utf8Regex.Benchmarks/BenchmarkInspectReporter.Pcre2Qualification.cs:201-206 | For an odd number of samples the ratio obtained through logarithms is the median ratio itself |
| `Replacement.ToDotNetReplacementString` | bench/Lokad.Utf8Regex.Benchmarks/PythonReBenchmarkReplacementFormatting.cs:13-22 | The loop appends what the specification prints, token by token |
| `Replacement.ReadInvertsPrint` | bench/Lokad.Utf8Regex.Benchmarks/PythonReBenchmarkReplacementFormatting.cs:13-22 | Reading the printed text from left to right gives the plan with adjacent literals merged, for all texts and group numbers |
| `Replacement.NormalizeIsNormal` | bench/Lokad.Utf8Regex.Benchmarks/PythonReBenchmarkReplacementFormatting.cs:13-22 | Merging leaves no empty and no adjacent literals |
| `Replacement.NormalPlansAreFixed` | bench/Lokad.Utf8Regex.Benchmarks/PythonReBenchmarkReplacementFormatting.cs:13-22 | A plan without empty and adjacent literals comes back unchanged |
| `Replacement.PrintsAlikeIff` | bench/Lokad.Utf8Regex.Benchmarks/PythonReBenchmarkReplacementFormatting.cs:13-22 | Two plans print alike if and only if they are the same up to merging |
| `Replacement.PrintedTextExpandsAlike` | bench/Lokad.Utf8Regex.Benchmarks/PythonReBenchmarkReplacementFormatting.cs:13-22 | The printed text expands as the plan does, for every assignment of groups |
| `ProcessorMasks.ReadHighestEfficiencyProcessorMask` | bench/Lokad.Utf8Regex.Benchmarks/BenchmarkProcessorScope.cs:138-197 | Empty for malformed records; otherwise the class is the greatest one among the allowed processors of group 0 that the records name, none exactly when they name none, and the mask holds exactly the processors of that class |
| `ProcessorMasks.ConsiderExtends` | bench/Lokad.Utf8Regex.Benchmarks/BenchmarkProcessorScope.cs:162-191 | One more record keeps the mask what it stands for, whatever its class |
| `ProcessorMasks.RecordsAreRead` | bench/Lokad.Utf8Regex.Benchmarks/BenchmarkProcessorScope.cs:154-180 | Records laid out in memory, each as long as its size says, are read back, all of them and in order |
| `ProcessorMasks.BadRecordIsNone` | bench/Lokad.Utf8Regex.Benchmarks/BenchmarkProcessorScope.cs:154-166 | A record shorter than twenty bytes or reaching past the end spoils the whole list, wherever it stands |
| `ProcessorMasks.EligibleMeans` | bench/Lokad.Utf8Regex.Benchmarks/BenchmarkProcessorScope.cs:166-180 | A record counts exactly if it is a CPU set of group 0 whose processor is below 64 and a one in the binary mask |
| `ProcessorMasks.SelectionIsAllowed` | bench/Lokad.Utf8Regex.Benchmarks/BenchmarkProcessorScope.cs:138-197 | Every selected bit is an allowed one, below 64 |
| `ProcessorMasks.SelectionExistsIff` | bench/Lokad.Utf8Regex.Benchmarks/BenchmarkProcessorScope.cs:138-197 | The mask is non-zero exactly when some record names an allowed processor of group 0 |
| `ProcessorMasks.SelectionIsUnique` | bench/Lokad.Utf8Regex.Benchmarks/BenchmarkProcessorScope.cs:138-197 | The records determine class and mask: no other result would do |
| `ProcessorMasks.OnlyReturnedBytesMatter` | bench/Lokad.Utf8Regex.Benchmarks/BenchmarkProcessorScope.cs:154-191 | What stands behind the returned bytes never influences the result |
| `ProcessorMasks.SelectLeastContendedProcessorMask` | bench/Lokad.Utf8Regex.Benchmarks/BenchmarkProcessorScope.cs:199-233 | Every candidate is probed once, lowest bit first, and the result is the single bit of the first candidate with the least median, or nothing when no median is below the limit |
| `ProcessorMasks.SortThree` | bench/Lokad.Utf8Regex.Benchmarks/BenchmarkProcessorScope.cs:199-233 | The middle of the three probes is their median |
| `ProcessorMasks.SingleBit` | bench/Lokad.Utf8Regex.Benchmarks/BenchmarkProcessorScope.cs:199-233 | A power of two has exactly one bit |

## Left out

- The regex engines, parsers, searchers and cursors beyond the anchored ASCII verifier: streams of matches and token matchers are inputs.
- Console, Markdown, JSON, file and git plumbing, command lines, option tables and error message texts.
- Real clocks, processor affinity, warm-up rounds, garbage collection and allocation probes: they are oracles or absent.
- Floating-point rounding: timings, ratios and the products that select quantile indices (0.25, 0.75, 0.025, 0.975) are exact reals.
- Qualification.VerifyPair: covers records with positive timings only; with zeros the source goes on with floating-point infinities and undefined quotients.
- Qualification.CollectSamples: timings are positive for the same reason.
- Qualification.MeasureSection: timings are positive for the same reason.
- Qualification.QualifyAndVerify: timings are positive for the same reason.
- The sentinel-row and fast-row summaries of the consistency verifier, and fields of the stored record that no check reads.
- The concrete Unicode 15.1 data, the extra-case contents and the benchmark catalogs: the compilers are proved for all data instead.
- ByteControl.InputWidthClass: lists the byte widths; joining their names into one text is left out.
- Replacement.ReadInvertsPrint: the reader covers `$$`, `${n}` and plain text, the only forms the printer emits; other substitutions of the host library, and `${n}` for a group the pattern does not have, are left out.
- ResultProducers.ChecksumsAgreeIff: streams of more than 2147483647 matches are left out there, because both counts wrap; the audits are covered for any length.
- AsciiVerifier.Compile: the budget of memory, depth and work that the caller supplies is left out (only the compiler's own ceiling of 1,048,576 steps is modelled); it is exceeded with exceptions of its own.
- AsciiDfaCompiler.BuildDfa: the step counter is a value handed from method to method instead of a field.
- AsciiProgram.TryMatch: deadlines and cancellation of a run are left out.
- AsciiNfaCompiler.Builder.AppendLoop: the states are values in the builder's sequence instead of objects with two growing buffers, which no other object refers to; minimum counts are natural numbers, as the front end produces them.
- AsciiAlphabet.SplitClasses: a class is a set of bytes instead of two 64-bit masks; bytes from 128 on are in no class.
- Utf8Scanners.CountLeadingRunFilterChecks: the 64-bit counter is unbounded here.
