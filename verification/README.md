# VW Passat in Dafny

A model of VW Passat, a CDCL (conflict-driven clause learning) SAT solver
written in Rust, together with its DIMACS and DRAT input/output, its
cube-and-conquer parallel front end and the pure parts of its benchmark
script. Every operation is a pure function (or a short method with loop
invariants) over immutable data; the properties the solver relies on are
stated as contracts and lemmas.

The modules follow the program's structure:

| module | file | models |
|---|---|---|
| `Results` | results.dfy | `Option` and a `Result` whose `Err` stands for a panic or an uncaught exception |
| `Types` | types.dfy | `src/types.rs`: literals, variables, clauses, problems, solutions, proofs |
| `SeqUtil` | sequtil.dfy | generic sequence lemmas and an insertion sort used by several modules |
| `LitMaps` | litmap.dfy | `src/solver/map.rs`: `var_map` and `LitMap` as sequences |
| `Assignments` | assignment.dfy | `src/solver/assignment.rs`: trail, decision levels, backtracking |
| `Restart` | restart.dfy | `src/solver/restart.rs`: the Luby sequence |
| `VarHeaps` | varheap.dfy | the indexed max-heap of `src/solver/activity.rs` |
| `Activity` | activity.dfy | VSIDS bumping, decay and decision choice of `src/solver/activity.rs` |
| `WatchLists` | watchlist.dfy | watch-list bookkeeping of `src/solver/mod.rs` |
| `Cdcl` | solver.dfy | `Solver::new`, `create`, `add`, the solver invariant, `verify` helpers |
| `Propagation` | propagate.dfy | `propagate` of `src/solver/mod.rs` and the explanation (reason) of every propagated literal |
| `Removal` | remove.dfy | `remove` and `prune` of `src/solver/mod.rs` |
| `Solving` | solve.dfy | the steps of `Solver::solve` in `src/solver/mod.rs` |
| `Verification` | verify.dfy | `verify` and the test formulas of `src/solver/mod.rs` |
| `Dpll` | dpll.dfy | the older solver `src/solver.rs`: its assignment, watches and branching |
| `DpllSearch` | dpllsearch.dfy | propagation and the search loop of `src/solver.rs` |
| `Text` | text.dfy | decimal rendering and reading of integers shared by the writers and readers |
| `Dimacs` | dimacs.dfy | `src/io/mod.rs` and `src/io.rs`: DIMACS reader and solution writer |
| `Drat` | drat.dfy | `src/io/drat.rs`: binary and plain DRAT proof writer |
| `Parallel` | parallel.dfy | `src/parallel.rs`: frequent variables, cubes, splitting and how `solve` combines the threads' answers |
| `Benchmark` | benchmark.dfy | `tests/benchmark.py`: `dir_key` and Python's `int()` on directory names |
| `BenchmarkRun` | benchrun.dfy | `tests/benchmark.py`: `main`'s ordering, per-group rows and the solved/total tally |

Things the program gets from its environment are parameters of the model:
the time a solver run takes and whether it times out (`run` in
`BenchmarkRun`), the directory listing and the regular-expression filter of
the benchmark script, the bytes a reader consumes, the number of worker threads and the order
in which their answers arrive.

## Model

| member | source | states |
|---|---|---|
| Types.ToVar | src/types.rs:7-10 | the variable of a non-zero literal is at least 1 and is the literal or its negation |
| Types.ToVarNegation | src/types.rs:7-10 | a literal and its negation name the same variable |
| Types.ToVarPolarity | src/types.rs:7-10 | a literal is positive exactly when it equals its variable, negative exactly when it is the variable's negation |
| LitMaps.NewVarMap | src/solver/map.rs:9-11 | `var_map(n)` has `n + 1` default slots, so variables 1..n index it |
| LitMaps.Position | src/solver/map.rs:16-18 | a literal's slot lies in `1..2*var`, belongs to its variable, and is odd exactly for negative literals |
| LitMaps.LitAt | src/solver/map.rs:16-18 | every slot from 1 on stands for a non-zero literal |
| LitMaps.PositionRoundTrip | src/solver/map.rs:16-18 | the literal of a literal's slot is that literal |
| LitMaps.LitAtRoundTrip | src/solver/map.rs:16-18 | the slot of a slot's literal is that slot, so positions are a bijection onto `1..` |
| LitMaps.PositionInjective | src/solver/map.rs:16-18 | two literals share a slot only when equal; a negative literal sits just below its positive one |
| LitMaps.NewLitMap | src/solver/map.rs:22-24 | `LitMap::new(n)` has `2n + 1` slots and every literal over variables 1..n indexes a default slot |
| LitMaps.Put | src/solver/map.rs:35-38 | a write through `IndexMut` changes only the written literal's slot |
| Assignments.New | src/solver/assignment.rs:26-33 | a new assignment is valid, has a slot per variable, an empty trail at level 0, and leaves every variable unassigned with a negative saved phase |
| Assignments.Eval | src/solver/assignment.rs:35-39 | a literal is unknown exactly when its variable has no data, and true exactly when the stored value matches its sign |
| Assignments.EvalNegation | src/solver/assignment.rs:35-39 | a literal's negation evaluates to the negated value |
| Assignments.Level | src/solver/assignment.rs:68-70 | a literal has a level exactly when it is assigned |
| Assignments.ReasonOf | src/solver/assignment.rs:72-74 | a literal has a reason exactly when it is assigned |
| Assignments.Set | src/solver/assignment.rs:41-56 | `set` makes the literal true and its negation false, appends it to the trail, opens a level for a decision, records level, reason and saved phase, and leaves every other variable alone |
| Assignments.SetValid | src/solver/assignment.rs:41-56 | setting an unassigned variable keeps the assignment invariant |
| Assignments.SetFresh | src/solver/assignment.rs:41-56 | an unassigned variable does not occur on the trail, so `set` never duplicates a variable |
| Assignments.SetShape | src/solver/assignment.rs:41-56 | `set` keeps the sizes and index ranges that make later indexing safe |
| Assignments.SetTrailAssigned | src/solver/assignment.rs:41-56 | after `set` every trail literal is still true at the level of its trail position |
| Assignments.SetDecisionsMarked | src/solver/assignment.rs:44-46 | after `set` every level start on the trail still carries the `Decision` reason |
| Assignments.SetOnlyTrailAssigned | src/solver/assignment.rs:41-56 | after `set` only trail variables are assigned |
| Assignments.Decide | src/solver/assignment.rs:58-62 | `decide` pushes the variable in its saved phase as a decision, one level up |
| Assignments.DecideRepeatsLastPhase | src/solver/assignment.rs:54-62 | phase saving: after backtracking over `set(lit)`, deciding its variable repeats `lit` |
| Assignments.FirstDecisionNegative | src/solver/assignment.rs:58-62 | a variable never assigned before is decided negative |
| Assignments.Backtrack | src/solver/assignment.rs:80-87 | `backtrack(k)` leaves level `max(k-1,0)`, keeps saved phases, cuts the trail to a prefix and clears exactly the variables on the cut-off suffix |
| Assignments.Unassign | src/solver/assignment.rs:84-86 | the drain loop clears exactly the variables mentioned by the drained literals |
| Assignments.BacktrackValid | src/solver/assignment.rs:80-87 | backtracking keeps the invariant, keeps exactly the trail literals below level `k` with their data, and unassigns the rest |
| Assignments.BacktrackKeeps | src/solver/assignment.rs:80-87 | the data of every kept trail literal is untouched |
| Assignments.BacktrackLevels | src/solver/assignment.rs:82-84 | the cut falls exactly between trail literals of level below `k` and the others |
| Assignments.BacktrackDrops | src/solver/assignment.rs:84-86 | every literal past the cut becomes unassigned |
| Assignments.BacktrackShape | src/solver/assignment.rs:80-87 | backtracking keeps the sizes and index ranges |
| Assignments.BacktrackTrailAssigned | src/solver/assignment.rs:80-87 | after backtracking every trail literal is true at its level |
| Assignments.BacktrackOnlyTrailAssigned | src/solver/assignment.rs:80-87 | after backtracking only trail variables are assigned |
| Assignments.BacktrackDecisionsMarked | src/solver/assignment.rs:82-83 | after backtracking the remaining level starts still carry `Decision` |
| Assignments.RenameClause | src/solver/assignment.rs:89-98 | `rename_clause(i, j)` turns every propagation reason `i` into `j` and changes nothing else |
| Assignments.RenameValid | src/solver/assignment.rs:89-98 | renaming a clause keeps the assignment invariant |
| Assignments.BasicScenario | src/solver/assignment.rs:105-121 | the `basic` test: levels after two sets, and both variables unassigned after `backtrack(1)` |
| Assignments.BasicBacktrack | src/solver/assignment.rs:118-120 | any assignment with that trail and level list is fully unassigned by `backtrack(1)` |
| Assignments.TrailTrue | src/solver/assignment.rs:41-56 | every trail literal evaluates to true and its negation to false |
| Assignments.TrueOnTrail | src/solver/assignment.rs:41-56 | in a valid assignment every true literal is on the trail |
| Assignments.FalseOnTrail | src/solver/assignment.rs:41-56 | in a valid assignment every false literal has its negation on the trail |
| Assignments.TrailBound | src/solver/assignment.rs:18-23 | the trail never holds more literals than there are variables |
| Restart.LowBit | src/solver/restart.rs:18 | `u & -u` of a positive `u` is a power of two no larger than `u` |
| Restart.NewLuby | src/solver/restart.rs:7-9 | `Luby::new(base)` starts in a valid state with that base |
| Restart.Next | src/solver/restart.rs:15-21 | a step keeps the base and `u` positive |
| Restart.NextValid | src/solver/restart.rs:15-21 | each step keeps the state valid, outputs `base` times a power of two, and either doubles `v` or moves to the next `u` |
| Restart.StateValid | src/solver/restart.rs:15-21 | every state reached from a valid state is valid and holds a power of two |
| Restart.TakeState | src/solver/restart.rs:15-21 | the `i`-th output is `base` times the `v` of the `i`-th state |
| Restart.TakeAdd | src/solver/restart.rs:15-21 | taking `a + b` outputs is taking `a`, then `b` from the state reached |
| Restart.FirstTwenty | src/solver/restart.rs:27-32 | the `basic` test: the first twenty outputs of `Luby::new(1)` are 1,1,2,1,1,2,4,1,1,2,1,1,2,4,8,1,1,2,1,1 |
| VarHeaps.New | src/solver/activity.rs:41-53 | the new heap is ordered, holds every variable once at position `v - 1`, all of them inside, each with the default value |
| VarHeaps.SameValuesTransitive | src/solver/activity.rs:55-58 | keeping every variable's value is transitive over a chain of heap operations |
| VarHeaps.Swap | src/solver/activity.rs:55-58 | `swap` exchanges two entries, keeps `index` pointing at every variable and changes no value |
| VarHeaps.SiftUp | src/solver/activity.rs:60-69 | `sift_up` keeps values and the index; a heap ordered except above `pos` becomes ordered; an entry not beating its parent stays |
| VarHeaps.SiftDown | src/solver/activity.rs:71-90 | `sift_down` keeps values and the index; a heap ordered except below `pos` becomes ordered; entries outside the heap stay |
| VarHeaps.Largest | src/solver/activity.rs:73-82 | the chosen position is `pos` or a child inside the heap that beats it, and beats or ties both children |
| VarHeaps.RootDominates | src/solver/activity.rs:112-118 | in an ordered heap no entry exceeds the root |
| VarHeaps.Max | src/solver/activity.rs:112-118 | `max` is `None` exactly for an empty heap, otherwise a variable inside the heap whose activity no entry exceeds |
| VarHeaps.Extract | src/solver/activity.rs:120-130 | `extract` returns `max`, keeps the heap valid and every value, and parks the extracted variable just past the shrunk heap |
| VarHeaps.Restore | src/solver/activity.rs:132-141 | `restore` is `None` exactly when nothing was extracted; otherwise it grows the heap by the next parked variable and keeps it valid |
| VarHeaps.SetValue | src/solver/activity.rs:92-98 | `set` gives the variable its new value, keeps every other value and keeps the heap valid |
| VarHeaps.Overwrite | src/solver/activity.rs:93-94 | the write alone leaves the heap ordered except above the slot (raised or outside) or below it (lowered) |
| Activity.NewEvsids | src/solver/activity.rs:151-157 | `Evsids::new` starts with increment 1, nothing seen, every activity 0, every variable in the heap |
| Activity.Touch | src/solver/activity.rs:159-166 | `touch` bumps an unseen variable by the increment once and marks it seen; a seen variable changes nothing; other variables keep their activity |
| Activity.Rescale | src/solver/activity.rs:168-181 | `rescale` installs the next increment, makes every variable unseen and keeps activities |
| Activity.Choose | src/solver/activity.rs:183-196 | `choose` returns `None` exactly when every variable is assigned, otherwise an unassigned variable of greatest activity; the heap afterwards holds the same values |
| Activity.AllOutsideAssigned | src/solver/activity.rs:186-192 | once the loop has extracted every variable, all of them were assigned |
| Activity.MaxIsBest | src/solver/activity.rs:186-190 | the first unassigned maximum met by the loop beats every unassigned variable |
| Activity.NewTracker | src/solver/activity.rs:205-210 | a new clause tracker has increment 1 and no clauses |
| Activity.AddClause | src/solver/activity.rs:212-214 | `add` appends activity 0 |
| Activity.RemoveClause | src/solver/activity.rs:216-218 | `swap_remove` returns the removed activity, moves the last one into its slot, keeps all others, and loses nothing else |
| Activity.TouchClause | src/solver/activity.rs:220-222 | `touch` bumps one clause by the increment and no other |
| Activity.PivotIsMedian | src/solver/activity.rs:228-233 | `select_pivot` is one of the activities from `start` on, with at most half of them below it and fewer than half above it |
| WatchLists.Without | src/solver/mod.rs:96-98 | `retain` keeps exactly the other indices and never grows the list |
| WatchLists.WithoutAbsent | src/solver/mod.rs:96-98 | retaining away an index that is not in the list changes nothing |
| WatchLists.WithoutDistinct | src/solver/mod.rs:96-98 | retaining keeps a watch list free of repeated indices |
| WatchLists.Replace | src/solver/mod.rs:101-107 | the rename loop rewrites exactly the entries equal to `from` and keeps the rest in place |
| WatchLists.ReplaceMembers | src/solver/mod.rs:101-107 | after renaming, the list holds its old indices except `from`, plus `to` when `from` was there |
| WatchLists.ReplaceAbsent | src/solver/mod.rs:101-107 | renaming an index that is not in the list changes nothing |
| WatchLists.ReplaceDistinct | src/solver/mod.rs:101-107 | renaming to an index not yet present keeps the list free of repeats |
| WatchLists.SwapRemoveDistinct | src/solver/mod.rs:110-111 | `swap_remove` on a repeat-free list drops exactly the removed index |
| Cdcl.Watch | src/solver/mod.rs:77-78 | pushing onto a literal's watch list appends the index there and changes no other list |
| Cdcl.Add | src/solver/mod.rs:74-83 | `add` returns the old clause count, appends the clause and a tracker slot, and registers it under its first two literals when it has two or more; nothing else changes |
| Cdcl.AddedWatches | src/solver/mod.rs:76-79 | each watch list gains the new index once per first-two literal that maps to it, and no other list changes |
| Cdcl.AddKeepsInv | src/solver/mod.rs:74-83 | adding a clause of distinct in-range literals keeps the solver invariant (clauses in range, watches sound and complete) |
| Cdcl.AddKeepsShape | src/solver/mod.rs:80 | the clause list stays in range and repeat-free |
| Cdcl.AddKeepsSound | src/solver/mod.rs:76-79 | every registered index still names a clause that watches the list's literal |
| Cdcl.AddKeepsComplete | src/solver/mod.rs:76-79 | every clause of two or more literals is still registered under both watched literals |
| Cdcl.NormalizeShape | src/solver/mod.rs:66-67 | after `sort` and `dedup` a clause is strictly increasing, repeat-free and has the same literals |
| Cdcl.NormalizeKeepsMeaning | src/solver/mod.rs:66-67 | `sort` and `dedup` do not change which valuations satisfy a clause |
| Cdcl.Empty | src/solver/mod.rs:51-63 | the solver before the loop of `create` satisfies the invariant with no clauses |
| Cdcl.NormalizeInRange | src/solver/mod.rs:65-68 | a normalized clause of a well-formed problem has distinct in-range literals |
| Cdcl.AddNormalized | src/solver/mod.rs:65-69 | one iteration of `create`'s loop appends the normalized clause and keeps the invariant |
| Cdcl.Create | src/solver/mod.rs:48-72 | `create` yields a solver in the invariant whose clauses are the problem's normalized clauses in order, with the minimum clause count, a fresh assignment, propagation head 0, the given proof and zero activities |
| Cdcl.CreateKeepsMeaning | src/solver/mod.rs:65-69 | the created clause database is satisfied by exactly the valuations that satisfy the problem |
| Propagation.ScanFrom | src/solver/mod.rs:149-168 | the scan from `j` stops at the first true literal, or at the first unknown one past slot 0, having passed only false literals (or an unknown slot 0); otherwise it ends in unit (slot 0 unknown) or conflict (slot 0 assigned) |
| Propagation.ScanVerdicts | src/solver/mod.rs:149-178 | the scan reports a conflict exactly when every literal is false, and a unit exactly when slot 0 is unknown and every other literal is false |
| Propagation.FalseRefutes | src/solver/mod.rs:176-177 | a clause whose literals are all false is false under every total valuation agreeing with the trail |
| Propagation.UnitImplied | src/solver/mod.rs:170-174 | a valuation agreeing with the trail that satisfies a unit clause makes its slot-0 literal true, so the propagated literal is implied |
| Propagation.ExtendsEval | src/solver/mod.rs:132-187 | propagation only extends the assignment: what was assigned keeps its value |
| Propagation.SetExtends | src/solver/mod.rs:173-174 | setting an unknown literal extends the assignment |
| Propagation.ExplainedSet | src/solver/mod.rs:172-174 | a literal set because every other literal of clause `c` is false is explained by `c` |
| Propagation.ExplainedSameLits | src/solver/mod.rs:144-146 | reordering literals inside clauses keeps every trail literal explained |
| Propagation.ExplainedImplied | src/solver/mod.rs:132-187 | a valuation satisfying all clauses and agreeing with the trail up to `from` agrees with every explained literal after it, so propagation only adds implied literals |
| Propagation.Swap | src/solver/mod.rs:145 | `clause.swap(x, y)` exchanges two slots and keeps the others |
| Propagation.SwapSameLits | src/solver/mod.rs:145 | a swap keeps the clause's literals (as a multiset and as members) and their distinctness |
| Propagation.SameLitsMeaning | src/solver/mod.rs:144-162 | clause lists with the same literals per clause are satisfied by the same valuations |
| Propagation.Orient | src/solver/mod.rs:144-147 | after the conditional swap the visited literal is in slot 1, the clause watches the same literals, and it is the clause or its first two swapped |
| Propagation.WatchedClause | src/solver/mod.rs:137-139 | every index in a literal's watch list names a clause that watches that literal |
| Propagation.OrientKeepsInv | src/solver/mod.rs:144-147 | orienting a watching clause keeps the solver invariant and the clause's literals |
| Propagation.MoveWatch | src/solver/mod.rs:160-162 | moving a watch removes it from the old list by `swap_remove` and pushes it onto the new list; other lists stay |
| Propagation.MoveKeepsSound | src/solver/mod.rs:156-162 | after swapping in a new watch and moving the index, every watch-list entry still names a watching clause, and the new literal's list differs from the old one |
| Propagation.MoveKeepsComplete | src/solver/mod.rs:156-162 | after the move every clause is still registered under both watched literals |
| Propagation.MoveKeepsInv | src/solver/mod.rs:156-162 | the watch move keeps the solver invariant and the clause's literals |
| Propagation.UnitKeepsInv | src/solver/mod.rs:170-174 | setting the unit literal with its clause as reason keeps the solver invariant |
| Propagation.UnitExplained | src/solver/mod.rs:170-174 | the propagated literal is explained by its clause, all of whose other literals are falsified on the trail |
| Propagation.ScanClause | src/solver/mod.rs:149-180 | one oriented clause visit keeps the invariant and literals, extends the assignment by at most one explained literal, and either reports this clause as all-false or advances `i` or shrinks the list by one |
| Propagation.VisitClause | src/solver/mod.rs:137-181 | the same for one iteration of the `'clause` loop, orientation included |
| Propagation.VisitWatchers | src/solver/mod.rs:137-181 | the whole `'clause` loop for one false literal keeps the invariant and explanations, and a reported conflict is an all-false clause |
| Propagation.Advance | src/solver/mod.rs:183 | moving the propagation head past a visited literal keeps progress and lowers the work left |
| Propagation.LitToVisit | src/solver/mod.rs:133-134 | the negation of the trail literal at the head is a false literal with a watch list |
| Propagation.PropagateLit | src/solver/mod.rs:133-184 | one outer iteration either reports an all-false clause or strictly lowers the work left |
| Propagation.Propagate | src/solver/mod.rs:132-187 | `propagate` keeps the invariant and the clauses' literals, only extends the assignment with literals explained by clauses, and either reports an all-false clause or stops with the head at the end of the trail |
| Removal.IsLocked | src/solver/mod.rs:86-94 | the trail scan answers "blocked" exactly when some trail literal was propagated by the clause |
| Removal.UnlockedNoReason | src/solver/mod.rs:86-94 | when the scan finds nothing, no assigned variable has the clause as its reason |
| Removal.RetainWatches | src/solver/mod.rs:96-98 | the retain loop removes the clause's index from the lists of its own literals and leaves every other list alone |
| Removal.RenameWatches | src/solver/mod.rs:100-107 | the rename loop turns `last` into `c` in the lists of the last clause's literals and leaves every other list alone |
| Removal.WatchedTouches | src/solver/mod.rs:96-107 | a clause only ever sits in the lists of its own literals, so touching only those lists reaches all its entries |
| Removal.RemovedWatchesUniform | src/solver/mod.rs:96-107 | both loops together act on every list alike: remove `i`, then rename the last index to `i` |
| Removal.RemoveWatches | src/solver/mod.rs:96-107 | the two watch loops of `remove` produce exactly that uniform update |
| Removal.Remove | src/solver/mod.rs:85-112 | `remove` returns `None` and changes nothing exactly when the clause is a reason on the trail; otherwise it returns the clause, swap-removes it and its activity, renames the last clause's index in watches and reasons, and keeps the invariant |
| Removal.RemoveUnlocked | src/solver/mod.rs:96-111 | the unblocked part of `remove`, with the same effect |
| Removal.RemoveKeepsInv | src/solver/mod.rs:96-111 | what `remove` leaves behind satisfies the solver invariant |
| Removal.RemoveKeepsShape | src/solver/mod.rs:111 | after `swap_remove` the clauses stay in range and repeat-free |
| Removal.RemoveKeepsSound | src/solver/mod.rs:96-111 | after the removal every watch-list entry names a clause that watches the list's literal |
| Removal.RemoveKeepsComplete | src/solver/mod.rs:96-111 | after the removal every clause is registered under both watched literals |
| Removal.Prune | src/solver/mod.rs:114-130 | `prune` keeps the invariant, never touches the input clauses, loses exactly the removed clauses (as a multiset), logs one `Delete` step per removal in order, and keeps the trail |
| Removal.Deletions | src/solver/mod.rs:122-124 | the deletion steps for a list of clauses are one `Delete` per clause in order |
| Removal.LogDelete | src/solver/mod.rs:122-124 | a deletion is logged only when proofs are on, as one appended `Delete` step |
| Removal.PruneStep | src/solver/mod.rs:119-125 | one removal inside `prune` keeps the input-clause prefix, the multiset balance and the log |
| Removal.WithDeletions | src/solver/mod.rs:122-124 | the log after a run of deletions extends the old log by one step per clause |
| Removal.WithDeletionsSnoc | src/solver/mod.rs:122-124 | logging one more deletion extends the log by one `Delete` step |
| Solving.FalseClauseRefutes | src/solver/mod.rs:296-298 | a clause found all-false after propagating from `a0` refutes the clauses under `a0`'s trail, so the `Unsat` answer at line 297 is sound |
| Solving.EmptyRefutes | src/solver/mod.rs:284 | an empty clause refutes everything, so the `Unsat` answer at line 284 is sound |
| Solving.UnitsTrueExtends | src/solver/mod.rs:285-291 | unit clauses already true stay true as the assignment grows |
| Solving.UnitStep | src/solver/mod.rs:283-292 | one clause of the initial scan: an empty clause answers `Unsat`, an unknown unit is set with the clause as reason, a false unit answers `Unsat`; every `Unsat` is refuted and every scanned unit holds otherwise |
| Solving.InitialUnits | src/solver/mod.rs:282-294 | the initial scan answers `Unsat` whenever there is an empty clause, only when the clauses are refuted, and otherwise leaves every unit clause true |
| Solving.SolvePrelude | src/solver/mod.rs:282-298 | the scan plus the first propagation answer `Unsat` only for refuted clauses, always for an empty clause, and otherwise leave the invariant, all units true, and the head at the end of the trail |
| Solving.PreludeExplained | src/solver/mod.rs:282-298 | literals set by the scan and by propagation are explained by clauses of the original database |
| Solving.LogAdd | src/solver/mod.rs:308-310 | a learnt clause is logged only when proofs are on, as one appended `Add` step |
| Solving.BacktrackKeepsInv | src/solver/mod.rs:315-316 | `backtrack(k)` with the head clamped keeps the solver invariant, the clauses and watches, and lands on level `max(k-1,0)` |
| Solving.LearnStep | src/solver/mod.rs:308-321 | after a conflict the learnt clause is logged, level 0 answers `Unsat`, otherwise the solver backtracks, adds the clause and asserts its first literal with the new clause as reason, keeping the invariant |
| Solving.RestartBacktrack | src/solver/mod.rs:334-337 | a restart returns to level 0 keeping clauses, watches, proof and activities, cuts the trail to a prefix, and changes nothing when nothing was decided |
| Verification.AnyFound | src/solver/mod.rs:359 | the binary-search loop over a clause finds a literal exactly when the clause has a literal of the sorted model |
| Verification.ModelCovers | src/solver/mod.rs:356-359 | the `all` over the clauses holds exactly when every clause has a literal of the model |
| Verification.SortMembers | src/solver/mod.rs:354-355 | sorting the model keeps exactly its literals |
| Verification.Verify | src/solver/mod.rs:350-367 | `verify` accepts a model exactly when `sat` is expected and every clause has a model literal, `Unsat` exactly when `sat` is not expected, and never `Unknown` |
| Verification.ModelValuation | src/solver/mod.rs:350-367 | the valuation read off a model makes a variable true exactly when its positive literal is in the model |
| Verification.CoveredSatisfies | src/solver/mod.rs:356-359 | a consistent in-range model that `verify` accepts is a satisfying valuation, so acceptance is sound |
| Verification.TrueLits | src/solver/mod.rs:341-342 | the model of a total valuation lists one literal per variable, positive exactly when the variable is true |
| Verification.SatisfyingCovered | src/solver/mod.rs:356-359 | conversely every satisfying valuation gives a consistent in-range model that `verify` accepts |
| Verification.LectureModel | src/solver/mod.rs:387-389 | the first `basic_sat` formula has a model that `verify` accepts and that satisfies it |
| Verification.LectureModel2 | src/solver/mod.rs:391-400 | the second `basic_sat` formula has a model that `verify` accepts and that satisfies it |
| Verification.BasicUnsatRefuted | src/solver/mod.rs:404-415 | the `basic_unsat` formula has no satisfying valuation |
| Verification.KickstartRefuted | src/solver/mod.rs:419-422 | the `kickstart` formula has no satisfying valuation |
| Verification.UnsatTestsAccept | src/solver/mod.rs:404-422 | for both unsatisfiable test formulas `verify` rejects every consistent in-range model and accepts `Unsat` |
| Verification.MaxOf | src/solver/mod.rs:377 | `max()` of a non-empty list is one of its elements and no element exceeds it |
| Verification.CheckVarCountUndercounts | src/solver/mod.rs:377 | as written, `check` computes variable count 1 for `[[-2], [1]]`, a problem that is not well-formed with that count though its largest variable is 2 |
| Verification.ClauseMaxVar | src/solver/mod.rs:377 | the largest variable of a clause bounds all its variables and is one of them (0 for the empty clause) |
| Verification.MaxVar | src/solver/mod.rs:377 | the corrected count (largest absolute value) makes the problem well-formed and is a variable of it (or 0) |
| Verification.MaxVarLeast | src/solver/mod.rs:377 | no smaller count makes the problem well-formed |
| Dpll.AbsToVarOverflows | src/solver.rs:8-11 | as written, `lit.abs()` has no `i32` result for the literal `i32::MIN` (debug builds panic, release builds wrap), while `unsigned_abs` maps it to 2^31 |
| Dpll.UnsignedAbsTotal | src/solver.rs:8-11 | the corrected `to_var` (`unsigned_abs`, as in src/types.rs) is defined on every `i32` literal, agrees with `abs` wherever that is defined, and `abs` fails exactly at `i32::MIN` |
| Dpll.DEval | src/solver.rs:28-30 | a literal is unknown exactly when its variable has no value, and true exactly when the value matches its sign |
| Dpll.DEvalNegation | src/solver.rs:28-30 | a literal's negation evaluates to the negated value |
| Dpll.DNew | src/solver.rs:20-26 | a new assignment is valid, has a slot per variable, no trail and no decisions, and leaves every variable unknown |
| Dpll.DAssign | src/solver.rs:32-35 | `assign` makes the literal true and its negation false, pushes it on the trail, and touches no other variable |
| Dpll.DAssignValid | src/solver.rs:32-35 | assigning an unknown variable keeps the assignment valid |
| Dpll.DDecide | src/solver.rs:37-40 | `decide` assigns the literal and records its trail position as a decision |
| Dpll.DDecideValid | src/solver.rs:37-40 | a decision on an unknown variable keeps the assignment valid |
| Dpll.ClearVars | src/solver.rs:44-46 | the drain loop clears exactly the variables mentioned by the drained literals |
| Dpll.Truncate | src/solver.rs:43-47 | popping the last decision and cutting the trail at it clears exactly the variables of the cut-off literals |
| Dpll.DBacktrack | src/solver.rs:42-49 | `backtrack` cuts the trail at the last decision, pops that decision, and pushes the decided literal's negation |
| Dpll.DBacktrackValues | src/solver.rs:42-49 | after `backtrack` the flipped variable holds the opposite value, variables assigned after the decision are unknown, and the rest keep their values |
| Dpll.TruncateValid | src/solver.rs:43-47 | the cut assignment is valid and leaves the decided variable unknown, so assigning its negation is allowed |
| Dpll.DBacktrackValid | src/solver.rs:42-49 | `backtrack` keeps the assignment valid |
| Dpll.ChooseVar | src/solver.rs:109-118 | `choose_var` returns the smallest unknown variable, and `None` exactly when every variable is assigned |
| Dpll.Push | src/solver.rs:96-97 | pushing onto a literal's watch list appends there and changes no other list |
| Dpll.PushBothCounts | src/solver.rs:94-99 | after registering clause `i` under its first two literals, every list holds each of the first `i + 1` clauses as often as that clause's first two literals map to it |
| Dpll.PushBothEntries | src/solver.rs:94-99 | the pushes keep every entry a clause of at least two literals below `i + 1` |
| Dpll.NewWatches | src/solver.rs:93-99 | the watch table has `2n + 1` lists, and every list holds exactly the clauses watching its literal, counted with multiplicity |
| DpllSearch.NewSolver | src/solver.rs:90-107 | `Solver::new` keeps the clauses, starts with a fresh assignment and head 0, and registers every clause under its first two literals |
| DpllSearch.DExtendsEval | src/solver.rs:120-174 | propagation only extends the assignment: what was assigned keeps its value |
| DpllSearch.DAssignExtends | src/solver.rs:32-35 | assigning an unknown literal extends the assignment |
| DpllSearch.DTrailBound | src/solver.rs:13-17 | the trail never holds more literals than there are variables |
| DpllSearch.DFalseOnTrail | src/solver.rs:28-35 | a false literal has its negation on the trail |
| DpllSearch.DScanFrom | src/solver.rs:137-156 | the scan from `j` stops at a true literal, or at the first unknown literal past slot 0; otherwise no literal is true, every literal past slot 0 is assigned, and the verdict is unit exactly when slot 0 is unknown |
| DpllSearch.DScanVerdicts | src/solver.rs:137-165 | the scan reports a conflict exactly when every literal is false, and a unit exactly when slot 0 is unknown and every other literal is false |
| DpllSearch.ReplaceClauseKeeps | src/solver.rs:132-144 | reordering a clause in place keeps literals in range and the watch entries watchable |
| DpllSearch.DMoveWatch | src/solver.rs:143-152 | moving a watch keeps the invariant, the assignment and the clauses' literals, and shortens the visited list by one |
| DpllSearch.DVisitClause | src/solver.rs:125-168 | one iteration of the `'clause` loop keeps the invariant and literals, only extends the assignment, and either reports an all-false clause or lowers the work left on the list |
| DpllSearch.DVisitWatchers | src/solver.rs:124-168 | the `'clause` loop for one false literal keeps the invariant and only extends the assignment; a failure leaves an all-false clause |
| DpllSearch.DPropagate | src/solver.rs:120-174 | `propagate` keeps the invariant and literals, only extends the assignment, and either leaves the head at the end of the trail or reports an all-false clause |
| DpllSearch.AssignUnits | src/solver.rs:177-187 | the unit scan answers `Unsat` only for an empty clause or two opposite unit clauses, and every literal it assigns is a unit clause of the problem |
| DpllSearch.Flip | src/solver.rs:197-201 | flipping the last decision keeps the invariant, drops one decision, and moves the head back onto the flipped literal or keeps it |
| DpllSearch.DSolve | src/solver.rs:176-207 | `solve` answers `Unsat` only for an empty clause, opposite unit clauses, or a clause falsified without any decision; a `Sat` model is the trail, assigns every variable and names each once |
| Text.WordLength | src/io/mod.rs:19 | the first word of `split_whitespace` runs up to the first whitespace character |
| Text.Words | src/io/mod.rs:37 | every piece `split_whitespace` yields is non-empty and free of whitespace |
| Text.WordsCons | src/io/mod.rs:37 | a word followed by whitespace is split off as the first word |
| Text.WordsUnwords | src/io/mod.rs:37 | splitting words joined by single spaces gives the words back |
| Text.WordsSpaced | src/io/mod.rs:77-78 | splitting words that each end in a space gives the words back |
| Text.WordsLabelled | src/io/mod.rs:78 | a label word, a space, and space-ended words split into the label and the words |
| Text.WordsSpacedThen | src/io/mod.rs:77-78 | space-ended words followed by one more word split into all of them |
| Text.LineLength | src/io/mod.rs:8 | a line runs up to the first newline |
| Text.StripCr | src/io/mod.rs:8 | `lines()` drops exactly one carriage return before the newline |
| Text.LinesCons | src/io/mod.rs:8 | a line and its newline are split off as the first line |
| Text.LinesSingle | src/io/mod.rs:8 | text without a newline is one line |
| Text.LinesUnlines | src/io/mod.rs:8 | `lines()` gives back every line that `writeln!` wrote, then the lines of what follows |
| Text.LinesOfUnlines | src/io/mod.rs:8 | `lines()` undoes a run of `writeln!` calls |
| Text.SpacedIsLine | src/io/mod.rs:77-78 | joining lines with spaces stays a single line |
| Text.NatToString | src/io/mod.rs:77 | `to_string` of a natural number is a word of decimal digits without a leading zero |
| Text.IntToString | src/io/mod.rs:77 | `to_string` of an integer is one word on one line, starting with '-' exactly for negative values |
| Text.ParseUsize | src/io/mod.rs:23-24 | `parse::<usize>` only succeeds with values that fit 64 bits |
| Text.ParseI32 | src/io/mod.rs:38 | `parse::<i32>` only succeeds with values in the `i32` range |
| Text.DecimalNatToString | src/io/mod.rs:77 | the digits `to_string` writes have the number as their decimal value |
| Text.ParseUsizeRoundTrip | src/io/mod.rs:23-24 | parsing a rendered `usize` gives the number back |
| Text.ParseI32RoundTrip | src/io/mod.rs:38 | parsing a rendered `i32` gives the number back |
| Text.Tokens | src/io/mod.rs:77 | the words rendering a sequence of integers are their `to_string`s in order |
| Dimacs.ParseHeader | src/io/mod.rs:19-25 | the problem line is accepted exactly when its words start `p cnf` followed by two `usize` counts, which are returned |
| Dimacs.HeaderRoundTrip | src/io/mod.rs:19-25 | a rendered problem line parses back to its counts |
| Dimacs.HeaderLineShape | src/io/mod.rs:13-19 | a rendered problem line is one line that does not start with `c`, so the header loop stops at it |
| Dimacs.FindHeaderAt | src/io/mod.rs:10-26 | the header loop skips the leading `c` lines and parses the first other line, handing on the lines after it |
| Dimacs.FindHeaderAllComments | src/io/mod.rs:11 | input made only of comment lines runs out at `lines.next().unwrap()` |
| Dimacs.Feed | src/io/mod.rs:39-47 | a 0 closes the open clause and starts an empty one; any other literal extends the open clause |
| Dimacs.ReadLines | src/io/mod.rs:7-59 | a problem read by the current reader is well-formed and has the header's variable count and exactly the header's number of clauses |
| Dimacs.ReadLinesOld | src/io.rs:8-50 | a problem read by the older reader has the header's variable count and exactly the header's number of clauses |
| Dimacs.Join0Snoc | src/io/mod.rs:39-47 | writing one more clause appends its literals and a 0 |
| Dimacs.FeedWritten | src/io/mod.rs:39-47 | one literal fed extends the written-out form of what was read by exactly that literal |
| Dimacs.FeedAllDecomposes | src/io/mod.rs:37-48 | feeding a run of literals extends the written-out form by that run |
| Dimacs.FeedAllAppend | src/io/mod.rs:37-48 | feeding two runs is feeding the first, then the second |
| Dimacs.FeedAllOpen | src/io/mod.rs:44-46 | non-zero literals only extend the open clause |
| Dimacs.FeedAllClause | src/io/mod.rs:39-47 | a clause and its 0 are closed as one clause |
| Dimacs.FeedJoin | src/io/mod.rs:37-48 | feeding clauses each ended by 0, then an unfinished tail, closes exactly those clauses and leaves the tail open |
| Dimacs.FeedTokens | src/io/mod.rs:37-38 | parsing the rendered words of `i32` values feeds exactly those values |
| Dimacs.FeedWordsAppend | src/io/mod.rs:37-38 | parsing two runs of words is parsing the first, then the second, stopping at the first bad word |
| Dimacs.LineBreaksIrrelevant | src/io/mod.rs:31-49 | where the lines break does not matter: the body reads like the concatenation of all its words (without a `%` line) |
| Dimacs.PercentEnds | src/io/mod.rs:33-35 | the current reader ignores everything from the first line starting with `%` |
| Dimacs.CommentSkipped | src/io/mod.rs:13-16 | a leading comment line changes nothing for either reader |
| Dimacs.ClauseLines | src/io/mod.rs:37-48 | one line per clause, each holding the clause and its 0 |
| Dimacs.IntLineShape | src/io/mod.rs:37-38 | a line of rendered integers is one line that starts with neither `%` nor `c` and splits into their words |
| Dimacs.ClauseLineShape | src/io/mod.rs:37-38 | a clause line is one line that splits into the clause's words and a 0 |
| Dimacs.FeedClauseLines | src/io/mod.rs:31-49 | reading clause lines closes exactly those clauses |
| Dimacs.WellFormedLits | src/io/mod.rs:52-56 | the literals of a well-formed problem with at most `i32::MAX` variables are `i32` literals |
| Dimacs.RenderLines | src/io/mod.rs:7-59 | a rendered problem splits into its problem line and one line per clause |
| Dimacs.ReadRender | src/io/mod.rs:7-59 | both readers read a rendered well-formed problem back unchanged |
| Dimacs.Chunks | src/io/mod.rs:73-74 | `chunks(10)` gives `ceil(n/10)` pieces of 1 to 10 literals |
| Dimacs.FlattenChunks | src/io/mod.rs:74 | the chunks cover the model exactly once, in order |
| Dimacs.ModelLines | src/io/mod.rs:74-79 | one `v` line per chunk |
| Dimacs.ModelLineShape | src/io/mod.rs:75-78 | a `v` line is one line whose words are `v` and the chunk's literals |
| Dimacs.StatusLine | src/io/mod.rs:65-70 | the status line is `s` and a word that names exactly one of the three outcomes |
| Dimacs.ModelLinesWords | src/io/mod.rs:72-79 | every `v` line carries `v` and at most ten literals |
| Dimacs.WriteSolutionLines | src/io/mod.rs:61-81 | the written solution is the comment line, the status line, and for `Sat` the `v` lines and `v 0`; its line count follows |
| Dimacs.IntLines | src/io/mod.rs:31-37 | one rendered line per row of integers |
| Dimacs.FeedIntLines | src/io/mod.rs:31-49 | lines of `i32` values feed all their values in order |
| Dimacs.ReadIntLines | src/io/mod.rs:7-59 | a problem line followed by rows of literals is read as the clauses those rows close (by the current reader when in range) |
| Dimacs.BasicTest | src/io/mod.rs:88-96 | the `basic` test: both readers read two clauses `[1, 2]` and `[1, -2]` over two variables |
| Dimacs.SplitTest | src/io/mod.rs:98-104 | the `split` test: a clause spanning two lines is read as `[1, 1, -1, -1]` by both readers |
| Drat.EncodeShape | src/io/drat.rs:28-41 | the variable-byte form sets the high bit on every byte but the last, and its 7-bit groups, least significant first, are the number |
| Drat.EncodeLength | src/io/drat.rs:28-41 | a number below 128^k takes at most `k` bytes |
| Drat.EncodeFits | src/io/drat.rs:26 | every `u32` takes between 1 and `BUF_SIZE` (5) bytes, so the buffer never overflows |
| Drat.EncodeStep | src/io/drat.rs:30-38 | one loop iteration: the byte written and the bytes still to come together form the encoding of the number at loop entry |
| Drat.VarByteEncode | src/io/drat.rs:28-41 | the buffer loop with the final `&= 127` returns exactly the variable-byte form of `num`, within `BUF_SIZE` bytes |
| Drat.ReadNumber | src/io/drat.rs:28-41 | reading a variable-byte number consumes at least one byte |
| Drat.ReadEncoded | src/io/drat.rs:28-41 | reading stops exactly after an encoding and gives the number back, whatever follows |
| Drat.LitCode | src/io/drat.rs:44 | the intended code of a literal is twice its variable, plus one for a negative literal |
| Drat.LitCodeAsWritten | src/io/drat.rs:44 | the code as computed in `i32` and cast to `u32` fits 32 bits and agrees with the intended code for every `i32` literal except `i32::MIN` |
| Drat.EncodeLitAsWritten | src/io/drat.rs:43-46 | `encode_lit` as written agrees with the overflow-free encoding for every `i32` literal except `i32::MIN` |
| Drat.EncodeLitReadsBack | src/io/drat.rs:43-46 | the overflow-free encoding of a non-zero literal reads back as its code, which decodes to the literal |
| Drat.LitCodeFits | src/io/drat.rs:26 | the code of every `i32` literal fits the 5-byte buffer |
| Drat.DecodeLit | src/io/drat.rs:44 | a code names a literal exactly when it is at least 2 |
| Drat.DecodeLitCode | src/io/drat.rs:44 | the code of a non-zero literal decodes to that literal |
| Drat.ReadStep | src/io/drat.rs:49-52 | only the step bytes `a` and `d` are read, each as the step it codes |
| Drat.BinaryLemma | src/io/drat.rs:48-62 | a binary lemma starts with its step byte and ends with a 0 byte |
| Drat.ReadLits | src/io/drat.rs:56-61 | reading the literals up to the 0 code consumes at least one byte |
| Drat.ReadBinaryLemma | src/io/drat.rs:48-62 | reading a binary lemma consumes at least one byte |
| Drat.ReadEncodedLits | src/io/drat.rs:56-61 | literals written by `encode_lit` and a 0 read back, for every literal other than `i32::MIN` |
| Drat.BinaryLemmaRoundTrip | src/io/drat.rs:48-62 | a binary lemma reads back as the step and clause it was written from, for clauses without `i32::MIN` |
| Drat.ReadLitWords | src/io/drat.rs:108-111 | the literals read from a plain lemma are non-zero |
| Drat.ReadTokens | src/io/drat.rs:108-111 | the rendered literals of a clause and the closing `0` read back as the clause |
| Drat.PlainLineWords | src/io/drat.rs:103-112 | a plain lemma is one line whose words are `d` for a deletion, the literals, and `0` |
| Drat.TokensNotMarker | src/io/drat.rs:104-107 | no rendered literal reads as the deletion marker, so additions are told apart |
| Drat.PlainLemmaRoundTrip | src/io/drat.rs:103-112 | a plain lemma reads back as the step and clause it was written from |
| Drat.BinaryProofAppend | src/io/drat.rs:13-18 | writing a proof in two parts writes the parts one after the other |
| Drat.PlainProofAppend | src/io/drat.rs:13-18 | likewise for the plain format |
| Drat.BinaryProofSnoc | src/io/drat.rs:13-18 | each loop iteration appends one binary lemma |
| Drat.PlainProofSnoc | src/io/drat.rs:13-18 | each loop iteration appends one plain line |
| Drat.BinaryProofRoundTrip | src/io/drat.rs:10-19 | a binary proof reads back lemma by lemma, for proofs without the literal `i32::MIN` |
| Drat.PlainLines | src/io/drat.rs:13-18 | one plain line per lemma |
| Drat.PlainProofUnlines | src/io/drat.rs:111 | the plain proof is its lines, each ended by a newline |
| Drat.PlainLinesAreLines | src/io/drat.rs:111 | every plain lemma is a single line |
| Drat.ReadPlainLinesRoundTrip | src/io/drat.rs:103-112 | the plain lines read back as the proof |
| Drat.PlainProofRoundTrip | src/io/drat.rs:10-19 | a plain proof reads back lemma by lemma |
| Drat.WriteProof | src/io/drat.rs:10-19 | `write_proof` writes bytes exactly in the binary format; binary output reads back as the proof when no literal is `i32::MIN`, plain output whenever the literals are `i32` literals |
| Drat.MinLitCode | src/io/drat.rs:44 | as written, `i32::MIN` gets code 1 and a single byte `1`, which reads as no literal, while the overflow-free encoding reads back as `[i32::MIN]` |
| Drat.ReadZero | src/io/drat.rs:61 | the 0 byte ends a clause |
| Drat.MinLitLemma | src/io/drat.rs:43-62 | as written, the binary lemma `a i32::MIN 0` does not read back |
| Drat.MinLitLemmaCorrected | src/io/drat.rs:43-62 | written with the overflow-free encoding, the same lemma reads back |
| Drat.EncodeVectors | src/io/drat.rs:70-86 | the nine vectors of the `var_byte_encoding` test |
| Drat.TestLitCodes | src/io/drat.rs:89-94 | `encode_lit` as written gives the test's bytes for -63, -8193, 129 and -8191 |
| Drat.BinaryLemmaTest | src/io/drat.rs:89-94 | the binary `lemma_encoding` test: the two lemmas give the test's twelve bytes |
| Drat.DeleteLineTest | src/io/drat.rs:120-127 | the deletion lemma of the plain test renders as `d -63 -8193 0` |
| Drat.AddLineTest | src/io/drat.rs:120-127 | the addition lemma of the plain test renders as `129 -8191 0` |
| Drat.PlainLemmaTest | src/io/drat.rs:120-127 | the plain `lemma_encoding` test: the two lemmas give the test's text |
| Parallel.Frequencies | src/parallel.rs:21-25 | the counting loop succeeds exactly when every literal is non-zero and names a variable of the problem (otherwise `to_var` or the index panics), and then holds, per variable, how many literals of all clauses belong to it |
| Parallel.FrequenciesTable | src/parallel.rs:21-25 | the table the loop leaves is the occurrence table of the problem |
| Parallel.PopOrder | src/parallel.rs:15-17 | the heap pops each of the variables 1..n exactly once |
| Parallel.PopOrderRanked | src/parallel.rs:15-17 | the pops come in strictly descending `(frequency, variable)` order, as the max-heap of pairs gives them, with no variable twice |
| Parallel.FrequentVars | src/parallel.rs:20-35 | `frequent_vars` yields every variable 1..var_count once, most frequent first, ties broken towards the larger variable, and fails exactly where the counting loop panics |
| Parallel.CubesOf | src/parallel.rs:42-62 | `cubes` makes exactly `n` cubes |
| Parallel.Cubes | src/parallel.rs:39-63 | `cubes` panics exactly when `n` exceeds 2 to the number of variables, and otherwise returns `n` cubes |
| Parallel.CubesBase | src/parallel.rs:43-44 | no cubes for 0, one empty cube for 1 |
| Parallel.CubesUnfold | src/parallel.rs:45-61 | for `n >= 2`, the cubes of `n/2` over the other variables each extended by `vars[0]`, then those of `n - n/2` each extended by `-vars[0]` |
| Parallel.CubesEnds | src/parallel.rs:46-57 | the first `n/2` cubes end with `vars[0]` and the rest with its negation |
| Parallel.CubeVars | src/parallel.rs:39-63 | every literal of every cube is `v` or `-v` for a variable `v` of `vars` |
| Parallel.ExactlyOneCube | src/parallel.rs:39-63 | every valuation of the chosen variables satisfies exactly one of the cubes, so the cubes partition the search space |
| Parallel.Subproblems | src/parallel.rs:71-77 | one copy of the problem per cube, each with the same variable count |
| Parallel.SubproblemModels | src/parallel.rs:73-77 | a valuation satisfies a subproblem exactly when it satisfies the problem and the subproblem's cube |
| Parallel.WrappedPow2 | src/parallel.rs:40 | `2usize.pow(len as u32)` with truncation and wrap-around never exceeds `2^len` |
| Parallel.Pow2Wraps | src/parallel.rs:40 | from exponent 64 on the `usize` power is 0 |
| Parallel.Leading | src/parallel.rs:69 | `take(n)` keeps the first `min(n, var_count)` variables of the heap order |
| Parallel.LeadingValued | src/parallel.rs:69 | the variables taken are variables of the problem, so every valuation of the problem gives them values |
| Parallel.SplitAsWritten | src/parallel.rs:67-80 | `split` as written: when it does not panic it makes exactly `n` subproblems |
| Parallel.Split | src/parallel.rs:65-80 | the corrected `split` (the count capped at 2 to the number of variables) fails only where `frequent_vars` panics and makes `min(n, 2^min(n, var_count))` subproblems with the problem's variable count |
| Parallel.SplitKeepsModel | src/parallel.rs:65-66 | a model of the problem satisfies some subproblem |
| Parallel.SplitModelUnique | src/parallel.rs:65-66 | a model of a subproblem is a model of the problem and of no other subproblem |
| Parallel.SplitSatIff | src/parallel.rs:65-66 | the problem is satisfiable exactly when some subproblem is |
| Parallel.SplitNone | src/parallel.rs:67-80 | with `n = 0` both versions make no subproblems |
| Parallel.SplitAgrees | src/parallel.rs:67-80 | whenever `split` as written does not panic the corrected one returns the same subproblems, and it panics exactly when `n` exceeds the wrapped power |
| Parallel.SplitPanicsOnFewVars | src/parallel.rs:40 | with fewer than 64 variables and `n > 2^var_count`, `split` as written panics while the corrected one makes `2^var_count` subproblems |
| Parallel.OneVarFourThreads | src/parallel.rs:40 | a one-variable problem split four ways panics as written and gives two subproblems when corrected |
| Parallel.SplitPanicsOnManyVars | src/parallel.rs:40 | with `64 <= n <= var_count`, the power wraps to 0 and `split` as written panics, while the corrected one makes `n` subproblems |
| Parallel.FirstSat | src/parallel.rs:105-112 | the receiving loop answers `Sat` exactly when some thread's answer is `Sat`, that answer is one of the threads', and otherwise `Unsat` |
| Parallel.SatArrives | src/parallel.rs:106-111 | the order in which the answers arrive does not decide whether a `Sat` arrives |
| Parallel.SolveSatIff | src/parallel.rs:82-113 | `solve` answers `Sat` exactly when the problem is satisfiable, provided each thread answers `Sat` exactly when its subproblem is satisfiable |
| SeqUtil.Sort | src/solver/mod.rs:66 | `sort` returns an ascending permutation |
| SeqUtil.Dedup | src/solver/mod.rs:67 | `dedup` keeps the first element and exactly the values present, and on a sorted input leaves them strictly ascending |
| SeqUtil.SortDedupShape | src/solver/mod.rs:66-67 | `sort` then `dedup` gives the clause's literals strictly ascending, each once |
| SeqUtil.BinarySearch | src/solver/mod.rs:359 | `binary_search(..).is_ok()` on a sorted vector finds the key exactly when it is present |
| SeqUtil.SwapRemove | src/solver/mod.rs:111 | `swap_remove` returns the element at `i`, moves the last element into its place and keeps every other position |
| SeqUtil.SwapRemoveContents | src/solver/mod.rs:111 | swap-removing loses exactly the removed element |
| SeqUtil.CountSort | src/solver/activity.rs:230 | sorting keeps how many elements lie below and above any value |
| Benchmark.StripStart | tests/benchmark.py:56 | stripping the front removes the longest prefix of dropped characters and nothing else |
| Benchmark.StripEnd | tests/benchmark.py:56 | stripping the back removes the longest suffix of dropped characters and nothing else |
| Benchmark.StripKept | tests/benchmark.py:56 | `strip` leaves a string that starts and ends with kept characters unchanged |
| Benchmark.StripAround | tests/benchmark.py:56 | `strip` of dropped runs around such a string gives the string |
| Benchmark.DigitsOfPlain | tests/benchmark.py:56 | a run of plain digits is read digit for digit |
| Benchmark.ParseIntNoDigit | tests/benchmark.py:56 | `int()` raises on a string without a digit |
| Benchmark.ParseIntEmpty | tests/benchmark.py:56 | `int("")` raises |
| Benchmark.ParseDigits | tests/benchmark.py:56 | `int()` of plain decimal digits is their decimal value, leading zeros included |
| Benchmark.NegatedRun | tests/benchmark.py:56 | `int()` of `-` before a digit run is the negated value |
| Benchmark.ParseRendered | tests/benchmark.py:56 | `int()` reads every rendered integer back |
| Benchmark.ParseIntRoundTrip | tests/benchmark.py:56 | `int()` reads a rendered integer back whatever whitespace it skips surrounds it (ASCII space, `\t`, `\n`, `\v`, `\f`, `\r` and non-ASCII Unicode spaces) |
| Benchmark.ParseIntSeparator | tests/benchmark.py:56 | an ASCII separator such as U+001C is not skipped: `int()` of it before `20` raises |
| Benchmark.ParseIntUnderscore | tests/benchmark.py:56 | an underscore between digits is accepted: `int("2_0") == 20` |
| Benchmark.BeforeDash | tests/benchmark.py:56 | `split('-')[0]` is the longest dash-free prefix |
| Benchmark.BeforeDashOf | tests/benchmark.py:56 | what precedes the first dash is the part before it |
| Benchmark.BeforeDashNone | tests/benchmark.py:56 | without a dash the whole string is the first part |
| Benchmark.UnsatOfName | tests/benchmark.py:55 | a group counts as unsatisfiable exactly when its name starts with `uu` |
| Benchmark.ParseCount | tests/benchmark.py:56 | `int()` reads back a rendered variable count |
| Benchmark.DirKeyOfName | tests/benchmark.py:54-57 | a name made of `u`/`f` characters, a count, a dash and anything keys to that count and to whether it starts with `uu` |
| Benchmark.NoDigitKeyRaises | tests/benchmark.py:54-57 | `dir_key` raises on a name without a digit |
| Benchmark.DashKeyRaises | tests/benchmark.py:54-57 | `dir_key` raises on a name with nothing but `u`/`f` before its first dash |
| BenchmarkRun.Keyed | tests/benchmark.py:81 | keying the listing succeeds exactly when every name has a key, and pairs each name with its key in listing order |
| BenchmarkRun.SortSorted | tests/benchmark.py:81 | `dirs.sort(key=dir_key)` orders the names by key |
| BenchmarkRun.SortPermutes | tests/benchmark.py:81 | the sort is a permutation |
| BenchmarkRun.SortStable | tests/benchmark.py:81 | the sort is stable: names with equal keys keep their listing order |
| BenchmarkRun.MatchingSorted | tests/benchmark.py:92-94 | skipping the names the filter rejects keeps the sort order |
| BenchmarkRun.MatchingCount | tests/benchmark.py:92-94 | the filter keeps every matching name as often as it occurs and no other |
| BenchmarkRun.MatchingMembers | tests/benchmark.py:92-94 | a name is benchmarked exactly when it is listed and the filter matches it |
| BenchmarkRun.MatchingOfKey | tests/benchmark.py:92-94 | filtering and selecting one key commute |
| BenchmarkRun.OrderBySpec | tests/benchmark.py:80-94 | for any key function: the run aborts exactly when some listed name has no key, whatever the filter, and otherwise runs the matching names sorted by key, a permutation of them, with names of equal key in listing order |
| BenchmarkRun.OrderSpec | tests/benchmark.py:80-94 | the same for `dir_key`: one malformed directory name aborts the run even when the filter would skip it |
| BenchmarkRun.Rows | tests/benchmark.py:38-48 | one row per listed file |
| BenchmarkRun.SolvedCount | tests/benchmark.py:99 | the solved count never exceeds the number of rows |
| BenchmarkRun.RowsAt | tests/benchmark.py:38-48 | the row of each file holds that file and its outcome |
| BenchmarkRun.RunGroup | tests/benchmark.py:26-51 | `benchmark` returns one row per listed file in listing order, with no time exactly when that file timed out and the measured time otherwise, and solves at most as many files as it lists |
| BenchmarkRun.RecordedAppend | tests/benchmark.py:92-102 | the rows of consecutive groups are written one after the other |
| BenchmarkRun.RecordedCount | tests/benchmark.py:100 | `total` counts exactly the rows of the groups that ran to the end |
| BenchmarkRun.InterruptAddsNothing | tests/benchmark.py:95-102 | a group interrupted by `KeyboardInterrupt` adds no rows and no counts, and the loop goes on with the next group |
| BenchmarkRun.Tally | tests/benchmark.py:92-104 | the loop of `main` writes the rows of the groups that ran to the end, counts them as `total`, and counts the timed ones as `solved`, so `solved <= total` |

## Left out

- Cdcl.Create: requires a well-formed problem (non-zero literals naming variables of the problem), which `read_problem` guarantees; the Rust constructor would panic on an out-of-range literal instead.
- Dpll.DBacktrack: requires a pending decision, since `pop().unwrap()` in `backtrack` panics without one and `solve` only calls it when there is one.
- DpllSearch.DSolve: requires every literal to name a variable of the problem, as `Solver::new` indexes the watch lists by literal.
- DpllSearch.DSolve: carries a fuel bound and answers `Unknown` when it runs out; the Rust loop has no bound, and its termination is not proved.
- DpllSearch.DSolve: does not state that a `Sat` model satisfies the clauses, only that it is the trail, duplicate-free and covering every variable; that would need the completeness invariant of the two watched literals.
- Solving.LearnStep: its preconditions stand for what `analyze` and `simplify` guarantee (a non-empty, duplicate-free learnt clause over known variables, a backtrack level whose trail leaves the first literal unassigned); `analyze` and `simplify` themselves are not modelled.
- Solving: the `solve` loop's counters, the `f64` learnt-clause limit `max_learnt` that triggers pruning, and the Luby threshold that triggers restarts are not modelled; only the steps they choose between (`LearnStep`, `Prune`, `RestartBacktrack`) are.
- Removal.Prune: requires more clauses than the minimum count, because `select_pivot` indexes an empty vector otherwise and `solve` only prunes when learnt clauses exist; the contract does not state which clauses fall below the median activity.
- Activity: `f64` activities are integers, and the `rescale` thresholds and factors of `Evsids` and `ClauseTracker` are left out, since floating point is not modelled.
- Types: `i32` literals and `usize` indices are unbounded integers; the places where their width matters (`encode_lit`, `to_var`, `2usize.pow`) are written out explicitly.
- Drat.EncodeLitAsWritten: models a release build, where the `i32` arithmetic wraps; a debug build panics as soon as `2 * lit` overflows, for `|lit| >= 2^30`.
- Drat: the `BufWriter` and `Write` plumbing, and the I/O errors it can return, are left out; the writers produce byte and character sequences.
- Dimacs: reading from and writing to files is left out; the reader works on the whole text, and a read error is not modelled.
- Verification: the earlier `verify` in `src/solver.rs` is the `Sat` branch of the one in `src/solver/mod.rs`, which `Verification.ModelCovers` covers, and `check` in `src/solver.rs` has the same variable count as `src/solver/mod.rs`; neither is modelled separately.
- Parallel: spawning the threads, the channel and `available_parallelism` are not modelled; the order in which the answers arrive is a parameter of `FirstSat`, and the thread count is a parameter of `Split`.
- Benchmark.ParseInt: accepts only ASCII decimal digits, while Python's `int()` also accepts every other Unicode decimal digit (for example `int("٢٠") == 20`).
- BenchmarkRun: `run_solver`, the subprocess and its timeout, `time.perf_counter`, the progress output, `argparse`, `os.chdir`, the CSV header and formatting are left out; each file's outcome is the parameter `run`, the directory listings are parameters, and the regular-expression filter is a predicate parameter.
- BenchmarkRun.InterruptAddsNothing: an interrupted group adds no rows at all, because `benchmark` only hands its results back when it returns; the files of that group that had already run are lost, and the model follows this.
- `src/main.rs` (argument handling and file opening) and `tests/integration.rs` (a file-driven test runner) are not part of this model.

## Findings

| source | as written | input that shows it | evidently intended | confidence | as-written member | corrected member |
|---|---|---|---|---|---|---|
| src/solver/mod.rs:377 | the test helper takes the variable count as the absolute value of the largest literal | `[[-2], [1]]` gives a variable count of 1 although variable 2 occurs | the largest variable of any literal | not executed | Verification.CheckVarCountUndercounts | Verification.MaxVarLeast |
| src/solver.rs:8-11 | `to_var` uses `lit.abs()` | the literal `i32::MIN` has no `i32` absolute value (panic in debug, wrap in release) | `unsigned_abs`, as the newer `src/types.rs` does | not executed | Dpll.AbsToVarOverflows | Dpll.UnsignedAbsTotal |
| src/io/drat.rs:44 | `encode_lit` computes `-2 * lit + 1` in `i32` | the literal `i32::MIN` gets code 1, so the binary lemma `a i32::MIN 0` does not read back as that lemma | twice the variable plus one, computed without overflow | not executed | Drat.MinLitLemma | Drat.MinLitLemmaCorrected |
| src/parallel.rs:40 | `split` asks `cubes` for one cube per thread, and `cubes` asserts that this count is at most 2 to the number of leading variables | a one-variable problem split four ways panics | no more subproblems than there are cubes over the leading variables, and no panic | not executed | Parallel.OneVarFourThreads | Parallel.SplitSatIff |
