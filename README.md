# Crossword CSP generator, modelled in Dafny

This project models the constraint-satisfaction engine of `CrosswordCreator` in `generate.py`. The engine fills a crossword grid with words. It treats every slot of the grid as a variable and every word length and crossing letter as a constraint, and it solves them in four stages:

- Node consistency cuts each slot's domain down to the words of the slot's length.
- `revise` and AC-3 make pairs of crossing slots agree on their shared letter.
- Backtracking search picks the first unassigned slot and tries the words of its domain.
- `letter_grid` writes the found words into a height x width grid.

The puzzle (`Crossword`) is an input value. It holds:

- the slots in iteration order, each with its row, column, direction and length;
- the vocabulary in iteration order;
- the overlap table, which gives the two letter positions of a crossing or nothing;
- the neighbour list of each slot.

Its validity predicate lists what the engine relies on:

- no slot or word is listed twice;
- the overlap table is keyed by exactly the pairs of distinct slots, and it is symmetric;
- the overlap positions lie within the slots;
- neighbours are exactly the slots with a crossing.

Python gives no iteration order for sets and dicts. The model makes the order a parameter: the slot sequence, the vocabulary sequence and each neighbour sequence. A domain is enumerated in vocabulary order. A Python dict is an `Assignment`, which keeps its insertion order (`order`) and its contents (`entries`).

The module structure is as follows:

- `Puzzle` holds the input types.
- `Assignments` holds the dict and the consistency predicates.
- `Domains` holds the domain store, node consistency and `revise`.
- `ArcConsistency` holds AC-3.
- `Backtracking` holds the search as written.
- `Intended` holds the search and solver as documented.
- `Grid` holds the letter grid.
- `Generator` holds the `CrosswordCreator` class, whose methods change `domains` in place with the same loops as the source.
- `SolveExample` holds a puzzle on which `solve` itself crashes although it has a solution.

Each method is proved equal to the function that specifies it. For example:

- `Revise` is proved equal to `ReviseStep`.
- `AC3` is proved equal to `Ac3Run`.
- `Backtrack` is proved equal to `Search`.

The properties are proved as lemmas about those functions.

The model follows the code as written. In five places the code differs from its documentation:

- AC-3 re-enqueues the arcs (x, z) rather than (z, x).
- AC-3 can return True while a domain is empty: it looks for an empty domain only right after a revision that pruned it.
- The letter check in `consistent` never runs.
- `backtrack` raises an exception when it tries another value after a recursive call returned `None`. When the failed value was the last one, it returns `None` instead.
- `solve` ignores what AC-3 returns.

The first four are recorded under "## Findings", each with a corrected definition and its proved properties. The fifth is stated as two lemmas. `Generator.SolveAfterAc3FailureFindsNothing` covers a False answer. `Generator.SolveWithEmptyDomainFindsNothing` covers any domain left empty before the search.

## Model

| member | source | states |
|---|---|---|
| Assignments.Assignment.Put | generate.py:253 | writing a key gives the old entries updated at that key; the key's position is kept when it was present and appended when it was new |
| Assignments.DictKeys | generate.py:203 | the keys of an assignment are variables only, so no overlap pair ever tests as a member |
| Assignments.ConsistentAsWritten | generate.py:183-209 | what `consistent` decides as written: the words are distinct and each has its slot's length, with no condition on overlaps |
| Assignments.FullyConsistent | generate.py:183-209 | consistency as the docstring describes it: distinct words, right lengths, and agreeing letters at every overlap |
| Assignments.FirstUnassigned | generate.py:232-237 | the index of the first variable, in iteration order, that is not assigned; every earlier variable is assigned |
| Assignments.UnassignedExists | generate.py:248-251 | with distinct variables, a dict over them has at most one entry per variable; fewer entries means some variable is unassigned, and as many means the dict is complete |
| Assignments.TwinClashFacts | generate.py:202-206 | a complete dict of two crossing slots whose letters differ at the crossing still passes `consistent` as written |
| Assignments.ConsistentIgnoresOverlaps | generate.py:202-206 | there is a well-formed puzzle and a complete dict that `consistent` accepts although the dict violates an overlap |
| Domains.InitialDomains | generate.py:13-16 | every variable starts with the whole vocabulary, and the store is within the vocabulary |
| Domains.NodeConsistent | generate.py:102-107 | node consistency keeps the keys, keeps every domain inside its start, and leaves only words of the variable's length |
| Puzzle.Supports | generate.py:127 | the letter comparison `word_1[i] == word_2[j]`, false when either index is past the end of its word |
| Domains.Revised | generate.py:124-133 | the filtered domain of x is a subset of the old one, and it is empty when y's domain is empty |
| Domains.RemoveKeepsWellFormed | generate.py:259 | removing a word from one domain keeps every domain inside the vocabulary |
| Domains.NodeConsistentOnStep | generate.py:102-107 | filtering one more variable replaces that variable's domain by its words of the right length and leaves the rest |
| Domains.NodeConsistentOnEnds | generate.py:102-107 | filtering no variable leaves the store unchanged; filtering every key gives node consistency |
| Domains.NodeConsistentFilters | generate.py:102-107 | after node consistency the keys are unchanged, and a word is in a domain exactly when it was there before and its length is the variable's length |
| Domains.LengthsFitOverlaps | generate.py:121-127 | once every word has its slot's length, every overlap index lies within every word it is applied to |
| Domains.ReviseStep | generate.py:118-135 | only x's domain changes and it can only shrink; a False answer leaves the store unchanged; a True answer means x's domain strictly shrank |
| Domains.ReviseWithoutOverlap | generate.py:118-135 | with no overlap, `revise` returns False and changes nothing |
| Domains.ReviseKeepsSupported | generate.py:121-135 | x's new domain is exactly the old words that have a matching word in y's domain; the answer is True exactly when x's domain got smaller |
| Domains.ReviseOnSupported | generate.py:124-135 | revising an arc whose every word already has support changes nothing and returns False |
| Domains.ReviseSupportsArc | generate.py:124-133 | after `revise(x, y)` every word of x has support in y |
| Domains.ReviseIdempotent | generate.py:118-135 | revising the same arc twice in a row removes nothing the second time |
| Domains.TotalSizeShrinks | generate.py:157-166 | shrinking domains never raises the sum of the domain sizes, and shrinking one strictly lowers it |
| Domains.ReviseLowersTotal | generate.py:159-166 | a revision that returns True strictly lowers the sum of the domain sizes, which is what makes AC-3 terminate |
| Domains.InDomainOrder | generate.py:218-222 | the listed values are exactly the domain's words, and there are no repeats |
| Domains.DomainOrderEnumerates | generate.py:218-222 | the list holds each word of the domain exactly once, and it is as long as the domain |
| ArcConsistency.ArcsOf | generate.py:150-153 | the arcs listed for one variable are exactly (var, n) for its neighbours n |
| ArcConsistency.ArcsFrom | generate.py:149-153 | the arcs listed for a run of variables are exactly the (var, n) with var in the run and n a neighbour |
| ArcConsistency.AllArcs | generate.py:147-153 | the initial queue holds exactly the pairs (var, n) with n a neighbour of var |
| ArcConsistency.AllArcsAreOverlaps | generate.py:147-153 | every queued arc is a pair of distinct variables, and an arc is queued exactly when its slots cross |
| ArcConsistency.Requeue | generate.py:163-166 | after pruning x on (x, y), exactly the arcs (x, z) with z a neighbour of x other than y are appended |
| ArcConsistency.RequeueStandard | generate.py:163-166 | the corrected rule appends exactly the arcs (z, x) with z a neighbour of x other than y |
| ArcConsistency.RequeueValid | generate.py:163-166 | both rules append only arcs of distinct variables |
| ArcConsistency.Ac3Run | generate.py:157-169 | no key changes and every domain ends as a subset of its start; False is returned only when some domain that was not empty became empty |
| ArcConsistency.Ac3RunSkips | generate.py:158-159 | an arc whose revision returns False is popped and nothing is appended |
| ArcConsistency.Ac3RunPrunes | generate.py:158-166 | an arc whose revision prunes x without emptying it is popped, and the arcs (x, z) are appended |
| ArcConsistency.Ac3RunEmpties | generate.py:159-161 | a revision that empties x's domain stops AC-3 with False |
| ArcConsistency.Ac3RunStandard | generate.py:157-169 | the corrected AC-3 has the same frame: keys unchanged, domains only shrink, False only after emptying a domain |
| ArcConsistency.Ac3RunFixpoint | generate.py:157-169 | on an arc-consistent store AC-3 returns True and changes nothing |
| ArcConsistency.ReviseKeepsSolution | generate.py:124-133 | a solution lying inside the store still lies inside it after any revision |
| ArcConsistency.Ac3KeepsSolution | generate.py:157-169 | when a solution lies inside the store, AC-3 returns True and keeps the solution inside the store |
| ArcConsistency.Ac3StandardKeepsSolution | generate.py:157-169 | the corrected AC-3 keeps every solution as well, and then returns True |
| ArcConsistency.AllArcsCover | generate.py:147-153 | every crossing arc is in the initial queue or already supported |
| ArcConsistency.SupportedAfterShrink | generate.py:132 | shrinking only the domain of an arc's first variable keeps that arc supported |
| ArcConsistency.ReverseArcStaysSupported | generate.py:124-133 | revising (x, y) keeps the arc (y, x) supported if it was |
| ArcConsistency.NotRequeuedMeansNoOverlap | generate.py:163-166 | a neighbour arc into x that the corrected rule leaves out is (y, x) or has no overlap |
| ArcConsistency.StandardStepKeepsArc | generate.py:159-166 | a supported arc stays supported after a revision unless the corrected rule re-enqueues it |
| ArcConsistency.StandardNext | generate.py:158-166 | the corrected queue after one step keeps every arc that was behind the popped one |
| ArcConsistency.StandardStepCoversArc | generate.py:158-166 | after one corrected step, a crossing arc that is not queued is supported |
| ArcConsistency.StandardStepCovers | generate.py:158-166 | one corrected step keeps every crossing arc either queued or supported |
| ArcConsistency.Ac3StandardSound | generate.py:157-169 | when the corrected AC-3 returns True, the store is arc consistent |
| ArcConsistency.ChainValid | generate.py:163-166 | the three-slot chain A-B-C used as a counterexample is a well-formed puzzle |
| ArcConsistency.ChainPuzzleValid | generate.py:163-166 | the chain is well formed, its start store covers its variables, and its end store gives B only "su" |
| ArcConsistency.ChainAllArcs | generate.py:147-153 | the chain's initial queue is (A,B), (B,A), (B,C), (C,B) in that order |
| ArcConsistency.ReviseStepKeeps | generate.py:124-135 | a revision whose filter keeps every word of x returns False and leaves the store |
| ArcConsistency.ReviseStepPrunes | generate.py:124-135 | a revision whose filter changes x's domain returns True and stores the filtered set |
| ArcConsistency.ChainReviseAB | generate.py:124-135 | on the chain's start store, revising (A, B) removes nothing |
| ArcConsistency.ChainReviseBA | generate.py:124-135 | on the chain's start store, revising (B, A) removes nothing |
| ArcConsistency.ChainReviseBC | generate.py:124-135 | revising (B, C) drops "pr" from B, leaving {"su"} |
| ArcConsistency.ChainReviseCB | generate.py:124-135 | on the pruned store, revising (C, B) removes nothing |
| ArcConsistency.ChainReviseBAEnd | generate.py:124-135 | on the pruned store, revising (B, A) removes nothing |
| ArcConsistency.ChainRequeue | generate.py:163-166 | after pruning B on (B, C) the code appends only (B, A) |
| ArcConsistency.Ac3RunSkipsFront | generate.py:157-159 | two arcs at the front that revise to False are popped without effect |
| ArcConsistency.Ac3RunPrunesPair | generate.py:158-166 | on a two-arc queue, a pruning revision that appends one arc leaves the rest of the queue followed by that arc |
| ArcConsistency.Ac3RunTwoSkips | generate.py:157-169 | a two-arc queue whose arcs both revise to False drains with True |
| ArcConsistency.ChainFirstTwo | generate.py:157-159 | on the chain, AC-3 pops (A,B) and (B,A) without changes |
| ArcConsistency.ChainThird | generate.py:158-166 | on the chain, (B,C) prunes B and re-enqueues (B,A) behind (C,B) |
| ArcConsistency.ChainLastTwo | generate.py:157-169 | on the pruned chain, (C,B) and (B,A) drain the queue with True |
| ArcConsistency.ChainRun | generate.py:147-169 | AC-3 on the chain returns True with B's domain pruned to {"su"} |
| ArcConsistency.ChainEndNotArcConsistent | generate.py:163-166 | that final store is not arc consistent: "pq" in A has no support in B |
| ArcConsistency.Ac3TrueNotArcConsistent | generate.py:163-166 | there is a well-formed puzzle on which AC-3 as written returns True although the store is not arc consistent |
| ArcConsistency.SoloValid | generate.py:147-153 | the one-slot puzzle with no crossings is well formed, and its initial arc queue is empty |
| ArcConsistency.Ac3TrueWithEmptyDomain | generate.py:144-169 | there is a well-formed puzzle on which AC-3 as written, after node consistency, returns True although a domain is empty |
| ArcConsistency.Ac3Checked | generate.py:144-169 | the corrected AC-3 answer leaves the same store as AC-3 with the corrected re-enqueue rule |
| ArcConsistency.Ac3CheckedAnswer | generate.py:144-169 | from a queue covering every unsupported arc, the corrected answer is True exactly when no domain is empty, and True means the store is arc consistent |
| ArcConsistency.Ac3CheckedKeepsSolution | generate.py:144-169 | when a solution lies inside the store, the corrected AC-3 answers True and keeps the solution inside the store |
| Backtracking.Selected | generate.py:232-237 | the selected variable is a puzzle variable the dict does not hold |
| Backtracking.Search | generate.py:248-260 | the search keeps the keys, only shrinks domains, and never touches the domain of a variable the dict already holds |
| Backtracking.TryValues | generate.py:252-260 | the value loop has the same frame as the search |
| Backtracking.PutExtends | generate.py:253 | adding a new key extends the dict: the old order is a prefix and the old entries stay |
| Backtracking.SearchReturnsFull | generate.py:248-249 | a dict with as many entries as variables is returned as it is, with the store unchanged |
| Backtracking.FoundFromPut | generate.py:253-257 | a solution found from the dict with one more value tried is also a solution found from the dict |
| Backtracking.SearchSound | generate.py:248-260 | a returned dict is complete, extends the argument, takes each new value from the final domains, and passed `consistent` |
| Backtracking.TryValuesSound | generate.py:252-260 | a dict returned from the value loop is complete, extends the argument and passed `consistent` |
| Backtracking.CompleteSize | generate.py:248 | a complete dict over distinct variables has exactly one entry per variable |
| Backtracking.SolutionSize | generate.py:248-257 | a returned dict has one entry per variable |
| Backtracking.PrunedOnlyStep | generate.py:258-259 | keeping the first value, or dropping it after `consistent` rejected it, maintains "only rejected tried values were removed" |
| Backtracking.TryValuesPrunesFailures | generate.py:252-260 | the only words removed from the selected variable's domain are tried values that `consistent` rejected |
| Backtracking.TryAcceptedKeepsDomain | generate.py:254-257 | when the first value is accepted, the loop ends with the selected variable's domain as it was |
| Backtracking.SearchPrunesUnassignedOnly | generate.py:251-259 | a word removed from a domain during the search belongs to a variable that was unassigned at the call |
| Backtracking.SearchSelects | generate.py:248-252 | a dict that is not full has an unassigned variable, and the search tries its domain values in order |
| Backtracking.TryRejects | generate.py:258-259 | a rejected value is removed from the domain and the loop goes on with the next value |
| Backtracking.TryAccepts | generate.py:254-257 | an accepted value is searched from; a found dict or a crash of the recursion is the loop's outcome |
| Backtracking.TryCrashes | generate.py:253-255 | once a recursive call has failed, the next value crashes the loop |
| Backtracking.TryRecursionFails | generate.py:255-256 | when the recursion returns None, the loop goes on in the failed state with the store the recursion left |
| Backtracking.LonePuzzleValid | generate.py:252-257 | the two-slot counterexample for the search is a well-formed puzzle |
| Backtracking.LoneOrderA | generate.py:218-222 | the first slot's values in the counterexample come in the order "a", "b" |
| Backtracking.LoneOrderB | generate.py:218-222 | the second slot's only value is "a" |
| Backtracking.LoneFirstPick | generate.py:188-198 | giving the first slot "a" makes a dict that `consistent` accepts |
| Backtracking.LoneSecondPick | generate.py:188-193 | then giving the second slot "a" repeats a word, so `consistent` rejects it |
| Backtracking.LoneInner | generate.py:248-260 | the recursive call after picking "a" returns None |
| Backtracking.LoneOuter | generate.py:252-257 | the top-level search of the counterexample crashes |
| Backtracking.LoneSolution | generate.py:239-247 | the counterexample has a solution inside its domains |
| Backtracking.BacktrackCrashesOnSolvable | generate.py:252-257 | there is a solvable puzzle on which `backtrack` from the empty dict crashes instead of finding the solution |
| Intended.ConsistentPart | generate.py:183-187 | every part of a consistent dict is consistent |
| Intended.SearchIntended | generate.py:239-260 | the corrected search: on a None from the recursion it goes on with the next value, and it drops the permanent domain removal of generate.py:259; its properties are the Sound and Complete lemmas below |
| Intended.TryIntended | generate.py:252-260 | the corrected value loop over the values still to try; its properties are the Sound and Complete lemmas below |
| Intended.SolveIntended | generate.py:88-94 | the corrected `solve`: node consistency, the corrected AC-3, None when it answers False, and the corrected search otherwise; its properties are `SolveIntendedSound` and `SolveIntendedComplete` |
| Intended.SolutionOfPut | generate.py:253-255 | adding to the dict the word a solution uses keeps that solution reachable from the larger dict |
| Intended.SearchIntendedSound | generate.py:239-260 | the corrected search returns only complete, consistent extensions of its argument whose values come from the domains |
| Intended.TryIntendedSound | generate.py:252-260 | the corrected value loop returns only complete, consistent extensions |
| Intended.SearchIntendedComplete | generate.py:239-247 | when a solution from the dict within the domains exists, the corrected search finds one |
| Intended.TryIntendedComplete | generate.py:252-260 | when the solution's value for the selected variable is among the values still to try, the corrected loop finds a solution |
| Intended.TryIntendedHits | generate.py:253-257 | trying the solution's value succeeds |
| Intended.SolveStoresWellFormed | generate.py:92-93 | node consistency and the corrected AC-3 keep every domain inside the vocabulary |
| Intended.FoundIsSolution | generate.py:88-94 | a complete consistent extension of the empty dict within the domains solves the puzzle |
| Intended.SolveIntendedSound | generate.py:88-94 | whatever the corrected solver returns solves the puzzle |
| Intended.SolutionWithinNodeConsistent | generate.py:102-107 | every solution survives node consistency |
| Intended.WithinIsSolutionOf | generate.py:88-94 | a solution inside every domain is reachable from the empty dict |
| Intended.SolveIntendedComplete | generate.py:88-94 | the corrected solver finds a solution whenever the puzzle has one |
| Grid.Offset | generate.py:28-31 | the position in a word of a cell it covers, with that position's row and column being the cell |
| Grid.CellOf | generate.py:22-31 | a cell that shows a letter is covered by some written word, and the letter is that word's letter at the cell |
| Grid.CoversOwnCell | generate.py:28-31 | a slot's k-th cell is covered by its word exactly when k is less than the word's length |
| Grid.CoversStep | generate.py:28-31 | writing one more letter covers exactly one more cell |
| Grid.CellEmptyIffUncovered | generate.py:22-32 | a cell stays None exactly when no written word covers it |
| Grid.CellShowsLetter | generate.py:26-31 | for a consistent dict, a slot's k-th cell shows the k-th letter of its word, whichever covering word is written last |
| Grid.GridShowsEveryWord | generate.py:22-32 | the grid of a consistent dict shows every assigned word in its slot |
| Generator.NodeThenArcConsistent | generate.py:92-93 | node consistency then AC-3 keeps the keys, shrinks every domain, and leaves only words of the right length |
| Generator.SolveRun | generate.py:88-94 | `solve` keeps the store's keys |
| Generator.ArcsFromStep | generate.py:149-153 | listing one more variable appends that variable's arcs |
| Generator.RequeueStep | generate.py:163-166 | scanning one more neighbour appends its arc unless it is y |
| Generator.RepeatedWord | generate.py:190-193 | a word already seen in the dict makes the words not distinct |
| Generator.WordsSoFarStep | generate.py:190-194 | appending the next value keeps the seen-words list equal to the values so far |
| Generator.PrefixStep | generate.py:190-198 | a fresh word of the right length extends the well-sized prefix |
| Generator.PrefixAgreesStep | generate.py:200-206 | a variable that agrees with all assigned neighbours extends the agreeing prefix |
| Generator.PrefixWhole | generate.py:188-209 | a dict whose every entry is fresh and well sized passes `consistent` as written |
| Generator.PrefixAgreesWhole | generate.py:200-206 | a dict whose every entry agrees with its assigned neighbours meets every overlap |
| Generator.CrosswordCreator.constructor | generate.py:13-16 | the store starts with the whole vocabulary for every variable |
| Generator.CrosswordCreator.EnforceNodeConsistency | generate.py:96-107 | the store becomes the node-consistent filter of the old store, with every word of its variable's length |
| Generator.CrosswordCreator.WordsOfLength | generate.py:103-106 | the copy with wrong-length words removed is exactly the words of the variable's length |
| Generator.CrosswordCreator.Revise | generate.py:109-135 | the answer and the new store are those of `ReviseStep` |
| Generator.CrosswordCreator.AllArcsList | generate.py:147-153 | the built list is the initial arc queue |
| Generator.CrosswordCreator.NeighbourArcs | generate.py:150-153 | the inner loop lists the arcs of one variable |
| Generator.CrosswordCreator.AC3 | generate.py:138-169 | the answer and the new store are those of `Ac3Run` on the given arcs, or on all arcs when none are given |
| Generator.CrosswordCreator.EnqueueNeighbors | generate.py:163-166 | the queue grows by exactly the arcs (x, z) for neighbours z other than y |
| Generator.CrosswordCreator.AssignmentComplete | generate.py:171-181 | True exactly when every variable is assigned |
| Generator.CrosswordCreator.Consistent | generate.py:183-209 | True exactly when the words are distinct and each has its slot's length; overlaps are never checked |
| Generator.CrosswordCreator.ConsistentIntended | generate.py:183-209 | the corrected check is True exactly when the dict meets every constraint, overlaps included |
| Generator.CrosswordCreator.NeighboursAgree | generate.py:200-206 | True exactly when the variable agrees with every assigned neighbour; False rules out full consistency |
| Generator.CrosswordCreator.OrderDomainValues | generate.py:211-222 | the list holds every word of the domain once, in vocabulary order, and the store is unchanged |
| Generator.CrosswordCreator.SelectUnassignedVariable | generate.py:224-237 | the first unassigned variable in iteration order |
| Generator.CrosswordCreator.Backtrack | generate.py:239-260 | the outcome and the new store are those of `Search` |
| Generator.CrosswordCreator.AttemptValue | generate.py:253-259 | one pass of the loop body: the loop's outcome on the tried value, or the rest of the loop from the new store |
| Generator.CrosswordCreator.Solve | generate.py:88-94 | the outcome and the new store are those of `SolveRun` |
| Generator.CrosswordCreator.LetterGrid | generate.py:18-32 | a fresh height x width grid whose every cell is the letter of the last written word that covers it, or None |
| Generator.CrosswordCreator.WriteWord | generate.py:28-31 | writing one word sets exactly the cells it covers to its letters and leaves every other cell as it was |
| Generator.SolveAfterAc3FailureFindsNothing | generate.py:92-94 | when AC-3 reports False, `solve` still searches, and it cannot find a solution |
| Generator.SolveWithEmptyDomainFindsNothing | generate.py:92-94 | when a domain is empty after node consistency and AC-3, whatever AC-3 answered, `solve` finds no solution |
| Generator.SolveRunSound | generate.py:88-94 | a dict that `solve` returns is complete, over the puzzle's variables, passes `consistent` as written, and takes each word from the store it started with |
| SolveExample.TriValid | generate.py:88-94 | the three-slot puzzle of the `solve` counterexample is well formed |
| SolveExample.TriNodeConsistent | generate.py:102-107 | node consistency keeps the whole vocabulary for each of its slots |
| SolveExample.TriAllArcs | generate.py:147-153 | its initial queue is (B, C), then (C, B) |
| SolveExample.TriReviseBC | generate.py:124-133 | revising (B, C) leaves B only "xb" |
| SolveExample.TriReviseCB | generate.py:124-133 | revising (C, B) then leaves C only "bz" |
| SolveExample.Ac3FirstPrune | generate.py:158-166 | pruning x on (x, y), when y is x's only neighbour, leaves the queue (y, x) alone |
| SolveExample.Ac3LastPrune | generate.py:157-169 | pruning y on the last arc (y, x), when x is y's only neighbour, ends AC-3 with True |
| SolveExample.TriBeforeSearch | generate.py:92-93 | node consistency and AC-3 leave A the whole vocabulary, B {"xb"} and C {"bz"}, with the answer True |
| SolveExample.OrderKeepsAll | generate.py:218-222 | a domain holding every word lists the whole vocabulary in order |
| SolveExample.OrderKeepsFirst | generate.py:218-222 | a domain holding only the first of three words lists that word alone |
| SolveExample.FirstPick | generate.py:253-254 | giving the first slot a word of its length makes a one-key dict that `consistent` accepts |
| SolveExample.RepeatFails | generate.py:188-193 | giving a second slot the same word makes `consistent` reject the dict |
| SolveExample.SelectsSecond | generate.py:232-237 | with only the first slot assigned, the second is selected |
| SolveExample.InnerFails | generate.py:248-260 | the recursive call after the first pick returns None when the second slot's only word repeats it |
| SolveExample.OuterCrashes | generate.py:252-257 | the top-level call then crashes on the first slot's next value |
| SolveExample.TriCrashes | generate.py:248-260 | the search from the store AC-3 leaves crashes |
| SolveExample.TriSolution | generate.py:183-209 | A = "yq", B = "xb", C = "bz" is a solution: complete, within the vocabulary, and consistent overlaps included |
| SolveExample.TriFacts | generate.py:88-94 | on that puzzle `solve` crashes, the puzzle has a solution, and the corrected solver finds one |
| SolveExample.SolveCrashesOnSolvable | generate.py:88-94 | there is a solvable well-formed puzzle on which `solve`, from the constructor's store, crashes |

## Left out

- `print` and `save` (generate.py:34-86) are terminal and image output through PIL. They are I/O, so they are not modelled.
- `main` (generate.py:264-290) reads the command line and files. It is I/O, so it is not modelled.
- crossword.py is not part of this model. `Crossword` and `Variable` are inputs, and `Crossword.Valid` states what the engine assumes of them. The grid geometry behind the overlap table is the assumption `Grid.OverlapsMatchCells`, used only for the letter grid.
- The minimum-remaining-values, degree and least-constraining-value heuristics are described in doc comments only, and the code does not implement them. `order_domain_values` and `select_unassigned_variable` are modelled as the code is written.
- Python set and dict iteration order is unspecified. It is a parameter: the sequences of variables, words and neighbours. A domain is enumerated in vocabulary order.
- The dict passed to `backtrack` is modelled as a value, and each recursive call receives the dict with the new key. The code shares one dict between calls. After a failed recursive call, the caller only crashes or returns None, and the top-level dict is discarded, so the sharing cannot be observed.
- A rejected value stays in the shared dict until the next value overwrites it. This cannot be observed for the same reason.
- The `arcs` list handed to `ac3` is consumed in place by `pop(0)`. The model works on a copy, so the caller's list is not shown to empty.
- `assignment[var] is None` in `assignment_complete` never holds, because values are words. The model has no None values.
- Generator.CrosswordCreator.Revise: requires every overlap index to be within the domain words' lengths, and node consistency establishes this (`Domains.LengthsFitOverlaps`). The condition is sufficient, not necessary: the code indexes every word of x, but only the words of y up to the first match, so it raises IndexError only when a word it actually indexes is too short.
- Generator.CrosswordCreator.AC3: has the same sufficient index precondition as `Revise`.
- Generator.CrosswordCreator.LetterGrid: requires every letter to fall inside the grid. The code would raise IndexError otherwise, or write into a wrapped row or column for negative indices.
- Generator.CrosswordCreator.SelectUnassignedVariable: requires an unassigned variable to exist. The code's `[0]` would raise on a full dict. `backtrack` calls it only on a dict that is not full.
- Backtracking.Search: assumes of the puzzle only that variables and words are distinct; the rest of the puzzle's validity is not needed.
- Generator.CrosswordCreator.AttemptValue: is the body of `backtrack`'s loop, separated into its own method. It is not a function of the source.
- Python's exceptions are modelled as the `Crash` outcome of the search. No other exception path is modelled.

## Findings

| source | as written | input that shows it | evidently intended | confidence | as-written member | corrected member |
|---|---|---|---|---|---|---|
| generate.py:163-166 | after `revise(x, y)` prunes x, AC-3 appends the arcs (x, z) for the other neighbours z | chain A-B-C with A={"pq","st"}, B={"pr","su"}, C={"uv"}, crossing A[0]/B[0] and B[1]/C[0]: AC-3 returns True with A={"pq","st"}, B={"su"}, and "pq" has no support | append (z, x), so a True answer means the store is arc consistent | high, not executed | ArcConsistency.Ac3TrueNotArcConsistent | ArcConsistency.Ac3StandardSound |
| generate.py:144-169 | AC-3 tests for an empty domain only right after a revision that pruned it, and a domain that starts empty has no arc that prunes it | one 2-letter slot crossing nothing, vocabulary ["abc"]: node consistency empties the slot's domain, the queue is empty, and AC-3 returns True | return True only when no domain is empty, as the docstring says | high, not executed | ArcConsistency.Ac3TrueWithEmptyDomain | ArcConsistency.Ac3CheckedAnswer |
| generate.py:202-206 | the letter check is guarded by `x in assignment`, where x is the overlap pair, never a key | two crossing slots with the complete dict {"ab", "cd"}, whose letters differ at the crossing: `consistent` returns True | test whether the neighbour is assigned, then compare the letters | high, not executed | Assignments.ConsistentIgnoresOverlaps | Generator.CrosswordCreator.ConsistentIntended |
| generate.py:252-257 | the recursive result is bound to `assignment`; after None, the next value is written into None | slots A with {"a","b"} and B with {"a"}: A="a" leaves B no distinct word, the recursion returns None, and trying A="b" raises although {A:"b", B:"a"} solves the puzzle | keep the dict, undo the tried key, and try the next value | high, not executed | Backtracking.BacktrackCrashesOnSolvable | Intended.SearchIntendedComplete |
| generate.py:88-94 | the same crash, reached by `solve` on the store the constructor builds | A across crossing nothing, B down, C across with B[1] = C[0], all of length 2, vocabulary ["xb", "yq", "bz"]: AC-3 leaves B={"xb"} and C={"bz"}, A="xb" leaves B only a repeated word, and A="yq" raises, although {A:"yq", B:"xb", C:"bz"} solves the puzzle | the corrected search and `solve` that finds it | high, not executed | SolveExample.SolveCrashesOnSolvable | Intended.SolveIntendedComplete |
