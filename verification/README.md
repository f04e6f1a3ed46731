# Verified model of the repository's solvers

This project models the algorithmic core of a SAT-solving repository in Dafny and proves what that core
is for. Twelve parts are covered, each in the form the program has: classes whose methods update fields,
in-place array algorithms, and step systems for the concurrent protocols.

| part | files |
|---|---|
| propositional logic | `Logic`, `FiniteSets` |
| Glucose's conflict-driven search | `SolverState`, `SolverWatches`, `SolverAnalyze`, `SolverMinimize`, `SolverSearch`, `SolverInput`, `ClauseCleaning`, `SolverSteps`, `Solver` |
| Glucose's sort, heap and subsumption test | `Sorting`, `Heap`, `Subsumption` |
| Glucose's preprocessor | `Elimination`, `SimpState`, `SimpSolver` |
| Glucose-syrup's broadcast ring | `RingState`, `ClausesBuffer` |
| Painless' lock-free clause queue | `ClauseQueue` |
| Plingeling's clause pool | `ClausePool` |
| Treengeling's cube tree | `CubeTree` |
| the local search's circuit | `Circuit`, `Closing`, `Net` |
| the local search's clause bookkeeping | `Satisfaction`, `HillClimbing` |
| its squares test | `LatinSquares` |
| its enumeration of bags and tuples | `Combinations` |

How the search proof is built: `State` is the value of the solver's fields. `Inv` says that trail
positions, level blocks and reasons fit together; `LongShape` and `BinShape` that each clause is watched
by its first two literals; `WatchSem` that a false, propagated watch is excused by a true literal of the
same clause that is of no higher level. `Sound` and `Complete` tie the stored clauses and level-0 units to
the formula. Each method keeps these through small lemmas on values. Termination comes from `Rank`, a
number in base three read off the trail.

How the elimination proof is built: `Rebuilds(F, s, stack)` says that walking the stack turns any total
model of the reduced clauses into a model of the formula. `Refines` steps (units, subsumption,
strengthening) compose with it, and one elimination adds one segment of the stack.

Concurrency: the ring and the pool are locked as a whole in the program, so a run is any sequence of method
calls on a valid object. In the queue every read of a shared word and every compare-and-swap is a step of
its own, and any thread may take the next step.

Where the code and its comments differ, or a caller must know more than the signature says:

- The comment at `painless-v2/glucose/core/Solver.cc:986` promises an empty queue even after a conflict.
  Line 1014 returns a binary conflict before the queue is emptied, and then the other literal of the clause
  is always still queued: `Propagate` states that the queue is non-empty exactly then, `QueueNotEmpty` is a
  run.
- `painless-v2/glucose/parallel/ClausesBuffer.cc:172` asserts that something is left after a forced
  removal. `RemoveLastClause` and `MakeRoom` state exactly when nothing is left, `NothingLeft` is a run; the
  loop ends all the same, because the clause then fits. A clause larger than the ring goes on to remove from
  the empty ring, where line 125 asserts that there is a clause; the model ends with `fits` false.
- `localsearch/net/Net.cpp:134` looks up the readers of a node without the test made at line 114, although
  the lists reach to the largest argument only. `ComputeFlipped` ends with `inRange` false when that look-up
  leaves the lists and states exactly when it does; `UnlistedFlips` is an input, and `SomeUnlisted` says that
  networks whose nodes read smaller variables only always have a node beyond the lists. The exchange at line
  131 is read as one of neighbours.
- `localsearch/net/Net.cpp:59` looks up the arguments of a node in a table that `parse_node` grows to the
  largest node variable only. The constructor of `Net` needs every argument inside it: no node may read a
  variable above all node variables. A value node has no arguments.
- `localsearch/solver/HillClimbingSolver.cpp:206` has its sorting commented out; both users of a flip list
  need it sorted and without repetition, with units 0 or 1 at the flipped variables.
- `check_flipped` closes its argument in place (line 491 of that file), the closed list becomes the solution
  (line 498) and is what `apply_flipped` gets (line 521). Closing it once more appends every node in it again,
  so the nodes are toggled twice and their clauses counted twice in the same direction. `CheckThenApply` states
  what that leads to and exactly when it does no harm, `WrongCounts` is a run. On the original flips, of core
  variables only, `ApplyFlipped` keeps everything right.
- `OrAndNode` never moves its flip cursor (`localsearch/net/Node.cpp:59-62`), so it sees the first flip only.
- For more than three squares the place `k1 + k2 - 1` is shared by several pairs of squares, so the part
  of the sum about pairs says nothing there.
- Garbage collection in the pool never drops a few old clauses: readers get fewer from slot to slot, so it
  drops the nulled slots only or the whole pool.

## Model

| member | source | states |
|---|---|---|
| `CdclSolver.Solver.constructor` | painless-v2/glucose/core/Solver.cc:324-347 | The empty solver meets the invariant of the search. |
| `CdclSolver.Solver.NewVar` | painless-v2/glucose/core/Solver.cc:324-347 | A new variable gets empty watch lists and no value; the invariant of the search survives. |
| `CdclSolver.Solver.AddClause` | painless-v2/glucose/core/Solver.cc:349-401 | A clause added at level 0 is represented by what is stored; a `false` answer means that the formula is unsatisfiable. |
| `CdclSolver.Solver.AddUnit` | painless-v2/glucose/core/Solver.cc:391-393 | A clause that is unit at level 0 is enqueued and propagated; failure means that the formula is unsatisfiable. |
| `ClauseCleaning.CleanClause` | painless-v2/glucose/core/Solver.cc:354-375 | Exactly the true, false, repeated and complementary literals are recognised: either the clause is already satisfied or tautological, or what is left are its distinct unassigned literals in order. |
| `ClauseCleaning.SortedClause` | painless-v2/glucose/core/Solver.cc:354-355 | Sorting a clause by literal code keeps its literals. |
| `SolverInput.SkipObsolete` | painless-v2/glucose/core/Solver.cc:370-372 | A skipped clause follows from the level-0 assignment, so soundness and completeness of the store survive. |
| `SolverInput.StoreCleaned` | painless-v2/glucose/core/Solver.cc:394-400 | A cleaned clause together with the level-0 units says the same as the clause added. |
| `SolverInput.EmptyCleaned` | painless-v2/glucose/core/Solver.cc:389-390 | A clause whose literals are all false at level 0 refutes the formula. |
| `CdclSolver.Solver.UncheckedEnqueue` | painless-v2/glucose/core/Solver.cc:970-975 | The new state is the old one with the literal true at the current level and last on the trail; trail, level and reason invariants survive. |
| `SolverState.EnqueueKeeps` | painless-v2/glucose/core/Solver.cc:970-975 | Enqueueing an unassigned literal whose reason is unit keeps trail positions, level blocks and reasons right. |
| `SolverState.NewLevelKeeps` | painless-v2/glucose/core/Solver.h:482 | Opening a level keeps the invariant. |
| `SolverState.CancelKeeps` | painless-v2/glucose/core/Solver.cc:615-631 | Undoing levels keeps the invariant: every literal left still has its reason before it on the trail. |
| `SolverWatches.CancelSem` | painless-v2/glucose/core/Solver.cc:615-631 | The two-watch invariant survives a backjump, because a satisfied excuse is never of a higher level than the false watch it excuses. |
| `SolverWatches.EnqueueSem` | painless-v2/glucose/core/Solver.cc:970-975 | Enqueueing a literal that is not yet propagated keeps the two-watch invariant for the propagated part. |
| `SolverWatches.ReorderInv` | painless-v2/glucose/core/Solver.cc:1031-1038 | Exchanging literals in a clause that is no reason keeps the invariant. |
| `SolverWatches.MoveShape` | painless-v2/glucose/core/Solver.cc:1072-1077 | When a watch moves, every long clause is still on the lists of the complements of its first two literals, once each. |
| `SolverWatches.Fixpoint` | painless-v2/glucose/core/Solver.cc:1000-1116 | Once everything on the trail is propagated, no stored clause is false, and none has one unassigned literal and otherwise false ones. |
| `CdclSolver.Solver.PropagateBinary` | painless-v2/glucose/core/Solver.cc:1006-1020 | All binary clauses of the literal are excused afterwards, or the returned clause is binary, false and touches the current level. |
| `CdclSolver.Solver.VisitWatch` | painless-v2/glucose/core/Solver.cc:1022-1096 | One watcher visit: the clause is excused for the false literal and its watches stay right, or it is the conflict. |
| `CdclSolver.Solver.PropagateLong` | painless-v2/glucose/core/Solver.cc:1022-1097 | All longer clauses watching the literal are excused afterwards, or a false clause is returned and the queue is emptied. |
| `CdclSolver.Solver.Propagate` | painless-v2/glucose/core/Solver.cc:988-1116 | Without a conflict: fixpoint over all stored clauses and an empty queue. With one: a false clause with a literal of the current level. The trail only grows and clauses are only reordered. The queue is left non-empty exactly if the conflict is in a binary clause, hence never if all clauses are longer. |
| `SolverSteps.BinaryConflictEarly` | painless-v2/glucose/core/Solver.cc:1006-1016 | A binary clause is found false while its other literal is still in the queue. |
| `CdclSolver.QueueNotEmpty` | painless-v2/glucose/core/Solver.cc:985-1016 | A run of three clauses and one decision after which the queue is not empty. |
| `SolverAnalyze.LevelZeroHolds` | painless-v2/glucose/core/Solver.cc:763-765 | Literals of level 0 follow from the formula, so dropping their complements from a learnt clause is sound. |
| `SolverAnalyze.Resolve` | painless-v2/glucose/core/Solver.cc:760-790 | A resolution step with a reason keeps the marked literals entailed as a clause. |
| `SolverAnalyze.SelectLevel` | painless-v2/glucose/core/Solver.cc:785-790 | The backwards scan finds the latest marked literal, which is of the current level. |
| `SolverAnalyze.MarkedHold` | painless-v2/glucose/core/Solver.cc:803-829 | Marked literals that are closed under reasons are implied by the kept ones. |
| `SolverAnalyze.MinimizedEntailed` | painless-v2/glucose/core/Solver.cc:803-829 | Dropping closed literals leaves an entailed clause. |
| `CdclSolver.Solver.FirstUip` | painless-v2/glucose/core/Solver.cc:723-793 | The resolution walk ends with one literal of the current level, and the marks stand for an entailed clause that is false on the trail. |
| `CdclSolver.Solver.LitRedundant` | painless-v2/glucose/core/Solver.cc:892-926 | A positive answer comes with marks that are closed under reasons; a negative one restores all marks; a literal whose own reason is covered by the marks is always found redundant. |
| `CdclSolver.Solver.LocallyRedundant` | painless-v2/glucose/core/Solver.cc:812-827 | For a marked literal the answer is positive exactly if all other literals of its reason are marked or of level 0. |
| `CdclSolver.Solver.Minimize` | painless-v2/glucose/core/Solver.cc:803-833 | The learnt clause keeps its first literal and loses at least every literal whose reason it covers; without minimisation it is unchanged. |
| `CdclSolver.Solver.ComputeLbd` | painless-v2/glucose/core/Solver.cc:502-533 | The number of distinct levels in the clause. |
| `SolverMinimize.MinimizedAsserting` | painless-v2/glucose/core/Solver.cc:793-833 | What is left after minimisation is entailed, false on the trail and has one literal of the current level. |
| `SolverMinimize.BinRemovable` | painless-v2/glucose/core/Solver.cc:584-592 | A stamped literal met on the binary list is the complement of a literal of the clause, which a binary clause then removes. |
| `SolverMinimize.DemotedSuffix` | painless-v2/glucose/core/Solver.cc:593-606 | After the exchanges the cut-off end consists of exactly the removed literals. |
| `CdclSolver.Solver.MinimisationWithBinaryResolution` | painless-v2/glucose/core/Solver.cc:571-610 | If the clause spans few enough levels, exactly the literals are removed whose complement a binary clause of the asserting literal implies; otherwise it is unchanged. The result is still entailed and asserting. |
| `CdclSolver.Solver.SelectBacktrack` | painless-v2/glucose/core/Solver.cc:845-860 | Index 1 gets a literal of the highest level among the rest, and that level is returned; 0 for a unit clause. |
| `CdclSolver.Solver.Analyze` | painless-v2/glucose/core/Solver.cc:716-886 | For every conflict above level 0 the learnt clause follows from the formula, is false on the trail, has exactly one literal of the current level, at index 0, and one of the backjump level at index 1; all marks are cleared. |
| `CdclSolver.Solver.CancelUntil` | painless-v2/glucose/core/Solver.cc:615-631 | Exactly the assignments above the level are undone; every unassigned decision variable is a candidate again; exactly the phases that the saving mode asks for are saved. |
| `SolverSearch.UnitAfterBackjump` | painless-v2/glucose/core/Solver.cc:1388-1414 | After the backjump the learnt clause has its first literal unassigned and the others false. |
| `SolverSearch.LearntSem` | painless-v2/glucose/core/Solver.cc:1398-1416 | Storing the learnt clause and enqueueing its first literal keeps the two-watch invariant. |
| `CdclSolver.Solver.AttachClause` | painless-v2/glucose/core/Solver.cc:403-416 | The new clause is on the watch lists of its first two literals, all other clauses stay where they were. |
| `CdclSolver.Solver.Backjump` | painless-v2/glucose/core/Solver.cc:1388 | The state after the jump is propagated, and the learnt clause is unit in it. |
| `CdclSolver.Solver.LearnClause` | painless-v2/glucose/core/Solver.cc:1402-1416 | The learnt clause is stored, watched, entailed, and the reason of its first literal. |
| `CdclSolver.Solver.LearnUnit` | painless-v2/glucose/core/Solver.cc:1398-1401 | A learnt unit is enqueued at level 0 and follows from the formula. |
| `CdclSolver.Solver.ResolveConflict` | painless-v2/glucose/core/Solver.cc:1380-1416 | The whole conflict branch keeps the invariant and raises the rank of the trail, so no search state repeats. |
| `SolverSearch.RankGrows` | painless-v2/glucose/core/Solver.cc:1334-1484 | The rank of a trail, a number in base three over its positions, grows when the first difference is a decision turned into an implied literal or an empty place filled. |
| `SolverSearch.BackjumpProgress` | painless-v2/glucose/core/Solver.cc:1383-1416 | A backjump with a learnt clause raises the rank. |
| `SolverSearch.DecisionProgress` | painless-v2/glucose/core/Solver.cc:1479-1484 | A decision raises the rank. |
| `SolverSearch.PropagationProgress` | painless-v2/glucose/core/Solver.cc:1342 | Propagation does not lower the rank. |
| `CdclSolver.Solver.PickBranchLit` | painless-v2/glucose/core/Solver.cc:637-657 | Finds an unassigned decision variable unless there is none. |
| `CdclSolver.Solver.Decide` | painless-v2/glucose/core/Solver.cc:1479-1484 | A decision opens a level and keeps the invariant. |
| `CdclSolver.Solver.DecideOrAnswer` | painless-v2/glucose/core/Solver.cc:1421-1484 | After a fixpoint the search restarts, has found a model, or decides. |
| `CdclSolver.Solver.Round` | painless-v2/glucose/core/Solver.cc:1334-1484 | Each round ends the search with a right answer or raises the rank. |
| `CdclSolver.Solver.Search` | painless-v2/glucose/core/Solver.cc:1326-1485 | The loop ends. `False`: the formula is unsatisfiable. `True`: all decision variables are assigned, and if these are all variables, the assignment is a model of every clause ever added. Otherwise a restart with the invariant at level 0. |
| `SolverSearch.FullTrailModels` | painless-v2/glucose/core/Solver.cc:1472-1476 | A full trail at a fixpoint is a model of the formula, not only of the stored clauses. |
| `SolverSearch.ConflictAtRoot` | painless-v2/glucose/core/Solver.cc:1363-1365 | A false clause at level 0 refutes the formula. |
| `Logic.CodeBijection` | painless-v2/glucose/core/SolverTypes.h:90-100 | Literals and integers correspond one to one; complement is exclusive-or with 1 and the variable is the half. |
| `Sorting.ScanUp` | painless-v2/glucose/mtl/Sort.h:69 | The upward scan stops inside the range, at the first element not below the pivot. |
| `Sorting.ScanDown` | painless-v2/glucose/mtl/Sort.h:70 | The downward scan stops inside the range, at the last element not above the pivot. |
| `Sorting.Partition` | painless-v2/glucose/mtl/Sort.h:63-75 | The split lies strictly inside the range, nothing before it is above the pivot, nothing from it on is below. |
| `Sorting.SelectionSort` | painless-v2/glucose/mtl/Sort.h:38-52 | Sorts a range for any strict weak order and keeps its elements. |
| `Sorting.Sort` | painless-v2/glucose/mtl/Sort.h:56-80 | For any strict weak order the result is an ordered rearrangement; only the range changes; the recursion ends. |
| `Sorting.SortedUnique` | painless-v2/glucose/mtl/Sort.h:56-80 | If only equal elements are equivalent, sorted rearrangements are unique. |
| `Subsumption.CalcAbstraction` | painless-v2/glucose/core/SolverTypes.h:206-211 | The 32-bit signature holds the bit of every variable of the clause and no other. |
| `Subsumption.FilterPasses` | painless-v2/glucose/core/SolverTypes.h:470-471 | The signature filter never rejects a clause whose variables all occur in the other. |
| `Subsumption.SizePasses` | painless-v2/glucose/core/SolverTypes.h:470-471 | The length filter never rejects such a clause either. |
| `Subsumption.Subsumes` | painless-v2/glucose/core/SolverTypes.h:464-493 | The undefined literal exactly for a subset, a literal exactly if self-subsuming resolution on it applies. |
| `Subsumption.StrengthenEquivalent` | painless-v2/glucose/core/SolverTypes.h:495-499 | Next to the first clause, removing the literal from the second does not change its meaning. |
| `Subsumption.SubsumedRedundant` | painless-v2/glucose/core/SolverTypes.h:464-493 | A subsumed clause says nothing more. |
| `Elimination.Merge` | painless-v2/glucose/simp/SimpSolver.cc:309-338 | False exactly if the clauses clash on another variable, else the resolvent. |
| `Elimination.MergeSize` | painless-v2/glucose/simp/SimpSolver.cc:340-366 | The same test, with the size of that resolvent. |
| `Elimination.ResolventHolds` | painless-v2/glucose/simp/SimpSolver.cc:309-338 | The resolvent follows from the two clauses. |
| `Elimination.ResolventLits` | painless-v2/glucose/simp/SimpSolver.cc:309-338 | The literals of the resolvent are those of both clauses without the pivot. |
| `Elimination.ResolventDistinct` | painless-v2/glucose/simp/SimpSolver.cc:309-338 | The resolvent has every variable once. |
| `Elimination.MkElimClause` | painless-v2/glucose/simp/SimpSolver.cc:529-558 | Appends the clause with the literal of the eliminated variable in front and the length last. |
| `Elimination.ExtendModel` | painless-v2/glucose/simp/SimpSolver.cc:658-674 | The index walk over the flat stack performs exactly the repairs of the stored clauses, last clause first. |
| `Elimination.RebuiltAppend` | painless-v2/glucose/simp/SimpSolver.cc:658-674 | Repairs of a later segment come before those of an earlier one. |
| `SimpState.SegmentWalk` | painless-v2/glucose/simp/SimpSolver.cc:592-600 | In one segment the default of the eliminated variable is overturned exactly if a stored clause has no other true literal. |
| `SimpState.EliminationRebuilds` | painless-v2/glucose/simp/SimpSolver.cc:562-621 | If all resolvents are represented, models of what is left extend over the new segment to models of what was there before. |
| `SimpState.StoreStep` | painless-v2/glucose/simp/SimpSolver.cc:208-250 | Storing an entailed clause only shrinks the set of models to models of the formula. |
| `SimpState.DropStep` | painless-v2/glucose/simp/SimpSolver.cc:254-266 | Removing a represented clause keeps all models. |
| `SimpState.ShortenStep` | painless-v2/glucose/simp/SimpSolver.cc:296-298 | Replacing a clause by an entailed shorter one keeps all models. |
| `SimpState.RefinesRebuilds` | painless-v2/glucose/simp/SimpSolver.cc:418-482 | Steps that refine the clause set keep the way back to the formula. |
| `Preprocessor.Equisatisfiable` | painless-v2/glucose/simp/SimpSolver.cc:562-621 | In every reachable state the formula is satisfiable exactly if the reduced clause set with its level-0 units is. |
| `Preprocessor.RebuiltElsewhere` | painless-v2/glucose/simp/SimpSolver.cc:658-674 | Rebuilding changes no variable that is not eliminated. |
| `Preprocessor.SimpSolver.constructor` | painless-v2/glucose/simp/SimpSolver.cc:152-163 | The empty preprocessor is valid. |
| `Preprocessor.SimpSolver.AddClause` | painless-v2/glucose/simp/SimpSolver.cc:208-250 | The formula grows by the clause and the reduced set still represents it. |
| `Preprocessor.SimpSolver.AddClause_` | painless-v2/glucose/simp/SimpSolver.cc:208-250 | An entailed clause is cleaned, stored and entered into the occurrence lists, or represented already; at most one clause more; lists of other variables do not change. |
| `Preprocessor.SimpSolver.Lookup` | painless-v2/glucose/core/SolverTypes.h:396-406 | A cleaned occurrence list holds each live clause with the variable once and nothing else. |
| `Preprocessor.SimpSolver.StrengthenClause` | painless-v2/glucose/simp/SimpSolver.cc:269-305 | Removes one literal, or turns a binary clause into a unit; other clauses stay; the number of literals falls. |
| `Preprocessor.SimpSolver.BestVar` | painless-v2/glucose/simp/SimpSolver.cc:450-454 | The variable of the clause with the shortest occurrence list. |
| `Preprocessor.SimpSolver.CheckCandidates` | painless-v2/glucose/simp/SimpSolver.cc:456-479 | Subsumption and strengthening with one clause refine the clause set; the scan ends although the list shrinks under it. |
| `Preprocessor.SimpSolver.BackwardSubsumptionCheck` | painless-v2/glucose/simp/SimpSolver.cc:418-482 | Clauses and level-0 units stay equivalent, queue and new units are used up, and the loop ends. |
| `Preprocessor.SimpSolver.TooCostly` | painless-v2/glucose/simp/SimpSolver.cc:575-585 | True exactly if there are too many resolvents or one is too long. |
| `Preprocessor.SimpSolver.StoreSide` | painless-v2/glucose/simp/SimpSolver.cc:592-600 | The segment pushed holds one side with the eliminated literal in front and the unit of the other sign on top. |
| `Preprocessor.SimpSolver.AddResolvents` | painless-v2/glucose/simp/SimpSolver.cc:603-608 | Afterwards every pair of the two sides clashes or has its resolvent represented. |
| `Preprocessor.SimpSolver.EliminateVar` | painless-v2/glucose/simp/SimpSolver.cc:562-621 | Nothing changes exactly if the elimination is too costly; else the variable is eliminated, at most the counted resolvents are added, and models still extend to the formula. |
| `Preprocessor.SimpSolver.ExtendModel` | painless-v2/glucose/simp/SimpSolver.cc:658-674 | After any sequence of eliminations a total model of what is left becomes a model of every clause of the formula. |
| `SharedRing.ClausesBuffer.constructor` | painless-v2/glucose/parallel/ClausesBuffer.cc:84-92 | The empty ring is valid and nobody has been given anything. |
| `RingState.SlotAdd` | painless-v2/glucose/parallel/ClausesBuffer.cc:117-122 | Index arithmetic in the ring is address arithmetic modulo its size. |
| `RingState.SlotDistinct` | painless-v2/glucose/parallel/ClausesBuffer.cc:110-122 | Words less than a turn apart never share a slot. |
| `RingState.NeverStale` | painless-v2/glucose/parallel/ClausesBuffer.cc:192-197 | The test for an overtaken cursor fails for every cursor between the oldest and the newest word. |
| `SharedRing.CursorFresh` | painless-v2/glucose/parallel/ClausesBuffer.cc:192-197 | So the repair of a stale cursor never happens, forced removal included. |
| `SharedRing.ClausesBuffer.RemoveOldest` | painless-v2/glucose/parallel/ClausesBuffer.cc:126-146 | The oldest clause goes and exactly the cursors at it move to the next one. |
| `SharedRing.ClausesBuffer.RemoveLastClause` | painless-v2/glucose/parallel/ClausesBuffer.cc:124-147 | Removes the oldest clause and those after it whose counter is zero, and stops at one that somebody waits for; nothing is left exactly if nobody waits for any clause but the oldest. |
| `SharedRing.ClausesBuffer.MakeRoom` | painless-v2/glucose/parallel/ClausesBuffer.cc:169-173 | Removes until the clause fits; exactly a clause larger than the ring finds nothing left to remove. The ring is emptied exactly if no later clause leaves enough room and is waited for. |
| `SharedRing.NothingLeft` | painless-v2/glucose/parallel/ClausesBuffer.cc:169-173 | A ring with one clause that a second push empties. |
| `SharedRing.CountPush` | painless-v2/glucose/parallel/ClausesBuffer.cc:174-179 | A new clause waits for every thread but its origin. |
| `SharedRing.ClausesBuffer.PushClause` | painless-v2/glucose/parallel/ClausesBuffer.cc:166-182 | Refused exactly if it does not fit and removal is off; accepted it is appended to the sequence; cursors move only over removed clauses. With removal on, exactly a clause larger than the ring runs into the removal from an empty ring. |
| `SharedRing.TakenCount` | painless-v2/glucose/parallel/ClausesBuffer.cc:216-218 | Taking a clause lowers its own count by one and no other. |
| `SharedRing.NobodyWaits` | painless-v2/glucose/parallel/ClausesBuffer.cc:124-147 | A removed clause with count zero is missed only by its own thread. |
| `SharedRing.RaisedDeliveries` | painless-v2/glucose/parallel/ClausesBuffer.cc:124-147 | Cursors that jump over removed clauses lose nothing if nobody waited for these. |
| `SharedRing.ClausesBuffer.SkipOwn` | painless-v2/glucose/parallel/ClausesBuffer.cc:199-207 | The cursor moves to the next clause of another thread. |
| `SharedRing.ClausesBuffer.GetClause` | painless-v2/glucose/parallel/ClausesBuffer.cc:184-231 | Succeeds exactly if there is a clause of another thread from the cursor on and returns the first one. Without forced removal a thread is given exactly the other threads' clauses, once each, in order; every counter equals the number of threads still waiting and the oldest one is positive. |
| `SharedRing.SubsequenceForward` | painless-v2/glucose/parallel/ClausesBuffer.cc:169-173 | With forced removal a thread is given a subsequence of these, so none twice and none out of order. |
| `LockFreeQueue.StepList` | painless-v2/painless-src/clauses/ClauseBuffer.cpp:44-109 | Every step of every thread keeps the nodes one list, the head not behind the tail and the tail at most one node behind the last. |
| `LockFreeQueue.OthersKeep` | painless-v2/painless-src/clauses/ClauseBuffer.cpp:44-109 | What a thread knows from its local variables survives the steps of all others. |
| `LockFreeQueue.NextRead` | painless-v2/painless-src/clauses/ClauseBuffer.cpp:84-91 | If there is no node after the head that was read, the queue is empty at that moment. |
| `LockFreeQueue.StepThreads` | painless-v2/painless-src/clauses/ClauseBuffer.cpp:44-109 | The local knowledge of all threads, and that a new node belongs to one thread, is kept by every step. |
| `LockFreeQueue.InvStep` | painless-v2/painless-src/clauses/ClauseBuffer.cpp:44-109 | The whole invariant is kept by every step of every thread. |
| `LockFreeQueue.InitInv` | painless-v2/painless-src/clauses/ClauseBuffer.cpp:29-34 | The initial queue meets it. |
| `LockFreeQueue.InvEnabled` | painless-v2/painless-src/clauses/ClauseBuffer.cpp:44-109 | No thread ever follows a missing pointer. |
| `LockFreeQueue.StepRefines` | painless-v2/painless-src/clauses/ClauseBuffer.cpp:44-109 | On the contents, a step is one enqueue at the back, one dequeue of the oldest clause, which is the one handed out, or nothing. |
| `LockFreeQueue.FalseOnlyWhenEmpty` | painless-v2/painless-src/clauses/ClauseBuffer.cpp:88-91 | `getClause` gives up only if the queue was empty when it read the link. |
| `LockFreeQueue.HeadForward` | painless-v2/painless-src/clauses/ClauseBuffer.cpp:59-99 | The head moves by one node per dequeue and never passes the tail; the tail never moves back. |
| `LockFreeQueue.RunInv` | painless-v2/painless-src/clauses/ClauseBuffer.cpp:44-109 | The invariant holds in every state of every run of any number of threads. |
| `LockFreeQueue.RunFifo` | painless-v2/painless-src/clauses/ClauseBuffer.cpp:44-109 | In every run no thread is stuck, clauses leave in link order and once each, each thread's finished calls are a prefix of its events, and at rest the counter is the number of clauses in the queue. |
| `SharedPool.Pool.constructor` | painless-v2/lingeling/plingeling.c:1166-1175 | The empty pool is valid. |
| `SharedPool.Pool.ProduceCls` | painless-v2/lingeling/plingeling.c:495-531 | The clause is appended with count zero; nobody's position changes. |
| `SharedPool.StepSlots` | painless-v2/lingeling/plingeling.c:596-608 | Counts stay the numbers of workers past the slot, and the clause that reaches the limit is the first live one, so the nulled slots stay a prefix. |
| `SharedPool.FewerPast` | painless-v2/lingeling/plingeling.c:596-608 | Later slots have been passed by fewer workers. |
| `SharedPool.AllOrNothing` | painless-v2/lingeling/plingeling.c:561-566 | If the first live clause is dropped, all are. |
| `SharedPool.Pool.DropFront` | painless-v2/lingeling/plingeling.c:561-566 | Frees nothing if the first live clause has enough readers, otherwise everything. |
| `SharedPool.Pool.Gcls` | painless-v2/lingeling/plingeling.c:551-580 | Compaction drops the nulled prefix or everything, keeps positions relative to clauses, and keeps counts, accounts and deliveries right. |
| `SharedPool.Pool.Advance` | painless-v2/lingeling/plingeling.c:596-609 | One step over a slot keeps the invariant; a null slot is one that had left the pool before. |
| `SharedPool.Pool.ConsumeCls` | painless-v2/lingeling/plingeling.c:582-627 | Hands out the next clause of another worker that is still there; what was skipped were own clauses or ones already gone. |
| `SharedPool.HandedFair` | painless-v2/lingeling/plingeling.c:596-620 | No worker is handed a clause twice or one of his own. |
| `SharedPool.Pool.FreeDead` | painless-v2/lingeling/plingeling.c:591 | The clause a worker holds back is freed, once. |
| `SharedPool.Pool.DeleteAll` | painless-v2/lingeling/plingeling.c:541-549 | After shutdown every clause produced has been freed exactly once. |
| `CubeTree.Treengeling.constructor` | painless-v2/lingeling/treengeling.c:815-853 | The root cube is empty, so every assignment lies in it. |
| `CubeTree.NegatedMeaning` | painless-v2/lingeling/treengeling.c:921-932 | A leaf clause is false exactly on its cube. |
| `CubeTree.CloseKeeps` | painless-v2/lingeling/treengeling.c:1786-1794 | Closing a cube moves its assignments from the open cubes to the leaf clauses. |
| `CubeTree.SplitKeeps` | painless-v2/lingeling/treengeling.c:1531-1554 | Splitting divides the assignments of a cube between the two halves. |
| `CubeTree.CountPermuted` | painless-v2/lingeling/treengeling.c:1319-1327 | Sorting does not change which assignments are covered. |
| `CubeTree.NothingOpen` | painless-v2/lingeling/treengeling.c:1796-1803 | Without open cubes every assignment falsifies a leaf clause that follows from the formula. |
| `CubeTree.Treengeling.DelNode` | painless-v2/lingeling/treengeling.c:871-902 | The last node takes the place of the deleted one and every node knows its position. |
| `CubeTree.Treengeling.EnqNewLeaf` | painless-v2/lingeling/treengeling.c:921-970 | The negated cube of a refuted node is appended to the leaf clauses and follows from the formula. |
| `CubeTree.Treengeling.ConsumeLeaf` | painless-v2/lingeling/treengeling.c:956-988 | The parallel instance gets the leaf clauses in order; they follow from the formula. |
| `CubeTree.Treengeling.SortNodes` | painless-v2/lingeling/treengeling.c:1309-1327 | The same nodes in the order asked for, with their positions right. |
| `CubeTree.Treengeling.RunJobs` | painless-v2/lingeling/treengeling.c:1331-1375 | Exactly the chosen, unrefuted nodes get a result. |
| `CubeTree.Treengeling.LookaheadJobs` | painless-v2/lingeling/treengeling.c:1471-1527 | All old split literals are forgotten, the chosen nodes get new ones. |
| `CubeTree.Treengeling.SplitNode` | painless-v2/lingeling/treengeling.c:1531-1554 | The node gets the literal, a new node its complement; the partition is kept. |
| `CubeTree.Treengeling.SplitJobs` | painless-v2/lingeling/treengeling.c:1556-1584 | Exactly the unrefuted nodes with a literal are split. |
| `CubeTree.Treengeling.Flush` | painless-v2/lingeling/treengeling.c:1779-1805 | Exactly one leaf clause per node closed, no refuted node is left, and the answer 20 is given exactly if no node is, in which case the formula is unsatisfiable. |
| `CubeTree.Treengeling.Finish` | painless-v2/lingeling/treengeling.c:1895-1946 | The answers 20 and 10 are right, and a node with a model is not overlooked. |
| `CubeTree.Treengeling.Solve` | painless-v2/lingeling/treengeling.c:2323-2336 | After any number of rounds every assignment lies in one open cube or falsifies one leaf clause, and an answer is right. |
| `CircuitNet.PropagateAnd` | localsearch/net/Node.cpp:17-33 | The merge walk finds whether all arguments are true under the flips. |
| `CircuitNet.PropagateOr` | localsearch/net/Node.cpp:37-54 | The merge walk finds whether an argument is true under the flips. |
| `CircuitNet.Propagate` | localsearch/net/Node.cpp:7-54 | The value of the gate under the flips. |
| `CircuitNet.PropagateOrAnd` | localsearch/net/Node.cpp:56-76 | The value of an or-of-ands node under the first flip alone, since its cursor is never moved. |
| `CircuitNet.OrAndFollows` | localsearch/net/Node.cpp:56-76 | That is the value under all flips if the node reads none of the others. |
| `CircuitNet.OrAndExact` | localsearch/net/Node.cpp:56-76 | A node that reads no variable twice, with any number of groups, follows the flips on all units exactly if it reads none but the first, or has an empty group. |
| `CircuitNet.OrAndMissesFlip` | localsearch/net/Node.cpp:56-76 | A node of two groups and two flips of which it misses the second. |
| `CircuitNet.Net.FinalizeNode` | localsearch/net/Net.cpp:54-74 | The recursion ends and gives the node the length of the longest path to it; known depths stay. |
| `Circuit.DepthOrders` | localsearch/net/Net.cpp:82-85 | Sorted by depth, no node reads a variable that is defined at or after its place. |
| `CircuitNet.Net.Finalize` | localsearch/net/Net.cpp:76-98 | The finalized nodes are the parsed ones with their true depths, in topological order, and each variable lists exactly its readers. |
| `CircuitNet.Net.Compute` | localsearch/net/Net.cpp:100-108 | Every node without a unit gets the value of its gate; nothing else changes. The result is consistent exactly if the units that nodes had before are the ones found from scratch. |
| `Circuit.ScratchMeaning` | localsearch/net/Net.cpp:100-108 | Evaluating in order makes every node agree with its gate and touches no other variable. |
| `Circuit.ScratchUnique` | localsearch/net/Net.cpp:100-108 | Consistent units are the ones found from scratch. |
| `CircuitNet.InsertFlip` | localsearch/net/Net.cpp:128-132 | The variable is inserted in order, once more if it is there already. |
| `Closing.PlainAgrees` | localsearch/net/Net.cpp:124-139 | With flips of core variables under right units, the nodes dealt with agree with their gates under the flips, and the others are not flipped. |
| `Closing.PushedScratch` | localsearch/net/Net.cpp:124-139 | A node is appended exactly if it has another value in an evaluation from scratch. |
| `Closing.ExtendedCount` | localsearch/net/Net.cpp:124-139 | Whatever the list, each node is appended at most once, even if it is in the list already. |
| `Closing.PushedStays` | localsearch/net/Net.cpp:124-139 | Nodes appended later change nothing for a node dealt with, so the final list explains every decision. |
| `Closing.ClosedAgain` | localsearch/net/Net.cpp:124-139 | Closing a closed list appends exactly the nodes that it holds. |
| `CircuitNet.ClosedTwice` | localsearch/net/Net.cpp:110-139 | A closed list, closed again, holds each of its nodes twice and each core variable once, and the look-up leaves the lists exactly if it holds a node beyond them. |
| `CircuitNet.Net.ComputeFlipped` | localsearch/net/Net.cpp:110-139 | For any list and any units of the nodes: a node is appended exactly if it reads from the list and its value under the list is not its unit, and the look-up of readers leaves the lists exactly if such a node is beyond them. For flips of core variables under right units: the look-up leaves the lists exactly if a node beyond them changes its value in an evaluation from scratch; otherwise the closed list is strictly sorted, keeps the flips, adds only nodes, and the flipped units are those found from scratch. |
| `CircuitNet.SomeUnlisted` | localsearch/net/Net.cpp:86-93 | If nodes read smaller variables only, some node is beyond the lists. |
| `CircuitNet.UnlistedFlips` | localsearch/net/Net.cpp:127-136 | A network of one node and a flip for which the look-up leaves the lists. |
| `Circuit.UniqueValues` | localsearch/net/Net.cpp:100-108 | The values of a finalized network are determined by its inputs. |
| `CircuitNet.ClosedIsFull` | localsearch/net/Net.cpp:110-139 | However the flips are closed, incremental evaluation equals evaluation from scratch on the flipped inputs. |
| `LocalSearch.PropagateFlips` | localsearch/cnf/Clause.cpp:33-45 | Whether the clause is true after the flips, from the units. |
| `LocalSearch.PropagateNoted` | localsearch/cnf/Clause.cpp:47-59 | The same from the noted truth of its literals. |
| `LocalSearch.HillClimbingSolver.PropagateSat` | localsearch/cnf/Clause.cpp:18-31 | Notes which literals are true and counts them. |
| `LocalSearch.ListClauses` | localsearch/solver/HillClimbingSolver.cpp:31-44 | Each literal lists the tracked clauses once per occurrence. |
| `LocalSearch.HillClimbingSolver.constructor` | localsearch/solver/HillClimbingSolver.cpp:27-120 | After set-up everything kept equals its definition; the units are consistent exactly if those that nodes had before are right. |
| `Satisfaction.ToggledCount` | localsearch/solver/HillClimbingSolver.cpp:249-257 | Flipping a variable moves its occurrences between true and false literals. |
| `Satisfaction.ListsCount` | localsearch/solver/HillClimbingSolver.cpp:253-282 | Going through both lists of a variable brings every count up to date. |
| `Satisfaction.ListsEffect` | localsearch/solver/HillClimbingSolver.cpp:253-282 | Going through both lists of a variable moves each count by the true less the false occurrences. |
| `Satisfaction.ShiftFlipped` | localsearch/solver/HillClimbingSolver.cpp:253-282 | When each listed variable has been flipped once, these moves add up to the change of the true count. |
| `LocalSearch.MovedAcross` | localsearch/solver/HillClimbingSolver.cpp:258-281 | When a count crosses zero, sums, toggles and literal counts follow, however often it does. |
| `LocalSearch.HillClimbingSolver.Lose` | localsearch/solver/HillClimbingSolver.cpp:258-269 | A lost literal: the wrapped 32-bit difference still gives the true count. |
| `LocalSearch.HillClimbingSolver.Gain` | localsearch/solver/HillClimbingSolver.cpp:270-281 | A gained literal, likewise. |
| `LocalSearch.HillClimbingSolver.ApplyFlipped` | localsearch/solver/HillClimbingSolver.cpp:242-291 | For any list that leaves the words room: each variable of the extended list is toggled as often as it is in it, each count moves by the effect of the list, and sums, satisfied clauses and literal counts belong to the counts. For flips of core variables from a right state everything is right afterwards, without any bound: the units are those of an evaluation from scratch, and counts, sums and literal counts equal their definitions. |
| `LocalSearch.HillClimbingSolver.FlipAll` | localsearch/solver/HillClimbingSolver.cpp:253-283 | Going through the lists of all listed variables, with the wrapped differences, keeps everything in step with the counts. |
| `LocalSearch.HillClimbingSolver.CheckThenApply` | localsearch/solver/HillClimbingSolver.cpp:490-521 | The sequence that a round makes, in which the check closes the list that is then applied: the core variables are flipped, the nodes keep their units, each count is off by twice the effect of the nodes, and the state is right exactly if no node had to follow. |
| `LocalSearch.DoubledNodes` | localsearch/solver/HillClimbingSolver.cpp:490-521 | Closing the list again doubles its nodes, so toggling the result flips the core variables only. |
| `LocalSearch.FollowersMissed` | localsearch/solver/HillClimbingSolver.cpp:490-521 | The network is consistent after that exactly if the list holds no node. |
| `LocalSearch.DriftedCounts` | localsearch/solver/HillClimbingSolver.cpp:242-286 | The counts after the clauses of the nodes have been gone through twice. |
| `LocalSearch.WrongCounts` | localsearch/solver/HillClimbingSolver.cpp:490-521 | A run of two nodes, two clauses and one flip after which a clause without a true literal has the count minus two. |
| `LocalSearch.HillClimbingSolver.CheckFlipped` | localsearch/solver/HillClimbingSolver.cpp:201-240 | True exactly if the sum would exceed the kept one once the clauses that mention a variable of the closed list had their right values. From a right state: exactly if the score of the evaluation from scratch exceeds the sum, hence exactly if applying the original core flips would raise it. |
| `LocalSearch.OneClosure` | localsearch/solver/HillClimbingSolver.cpp:201-291 | All ways to close the same flips lead to the same units. |
| `LocalSearch.HillClimbingSolver.SumIsScore` | localsearch/solver/HillClimbingSolver.cpp:107-119 | The kept sum is the score of the units. |
| `LatinSquares.SetUpHistograms` | localsearch/solver/HillClimbingSolver.cpp:343-376 | The histograms count rows, columns and pairs of values. |
| `LatinSquares.AddDelta` | localsearch/solver/HillClimbingSolver.cpp:643-673 | One count in one line rises and one falls, whether the line is new or not. |
| `LatinSquares.SumDeltas` | localsearch/solver/HillClimbingSolver.cpp:706-732 | The sum over the changed lines is the change in total collision cost. |
| `LatinSquares.LineHistPut` | localsearch/solver/HillClimbingSolver.cpp:643-673 | A cell change moves one value in one row and one column. |
| `LatinSquares.PlacesShared` | localsearch/solver/HillClimbingSolver.cpp:366-376 | Each pair of squares has a histogram of its own exactly if there are at most three squares. |
| `LatinSquares.PairHistPut` | localsearch/solver/HillClimbingSolver.cpp:674-703 | A cell change moves one pair of values per other square. |
| `LatinSquares.MovePair` | localsearch/solver/HillClimbingSolver.cpp:681-700 | The running sum follows the number of missing pairs. |
| `LatinSquares.SatisfyPredicateForDomain` | localsearch/solver/HillClimbingSolver.cpp:628-734 | The sum is exactly the change in row and column collision cost plus, for at most three squares and one changed cell per position, that in missing pairs; the answer is whether it is not positive. |
| `Combinations.NextCombination` | localsearch/utils/utils.cpp:74-89 | The place in colexicographic order rises by exactly one; false exactly after the last place, and then the first combination. |
| `Combinations.RankBound` | localsearch/utils/utils.cpp:74-89 | Places run below the binomial coefficient. |
| `Combinations.RankInjective` | localsearch/utils/utils.cpp:74-89 | Different combinations have different places. |
| `Combinations.RankFull` | localsearch/utils/utils.cpp:74-89 | A full run is the last combination below its end. |
| `Combinations.Contains` | localsearch/utils/utils.cpp:34-45 | Whether two sorted lists meet. |
| `Combinations.NextCombinationIncluding` | localsearch/utils/utils.cpp:47-55 | The next combination that meets the set, or none is left. |
| `Combinations.BagStart` | localsearch/solver/HillClimbingSolver.cpp:405-409 | The chosen start meets the set and no combination before it does. |
| `Combinations.AllBags` | localsearch/solver/HillClimbingSolver.cpp:405-438 | Every combination that meets the set and is acceptable is visited exactly once, and no other. |
| `Combinations.NextArray` | localsearch/utils/utils.cpp:9-18 | The tuple read as a number in mixed base rises by one; false exactly after the last, and then all zero. |
| `Combinations.AllTuples` | localsearch/solver/HillClimbingSolver.cpp:473-508 | Every index tuple is visited exactly once. |
| `Combinations.FallingBinom` | localsearch/utils/utils.cpp:20-32 | The falling product is the binomial coefficient times a factorial. |
| `Combinations.GetNumberOfCombinations` | localsearch/utils/utils.cpp:20-32 | No product wraps 64 bits, every division is exact, and the result is the binomial coefficient, or saturated exactly if a guard product exceeds 64 bits. |
| `IndexedHeap.RootLeast` | painless-v2/glucose/mtl/Heap.h:112-121 | The root is a least key. |
| `IndexedHeap.UpStep` | painless-v2/glucose/mtl/Heap.h:50-55 | Moving up leaves only the next parent in doubt. |
| `IndexedHeap.DownStep` | painless-v2/glucose/mtl/Heap.h:64-70 | Moving the smaller child up leaves only the next children in doubt. |
| `IndexedHeap.KeyChanged` | painless-v2/glucose/mtl/Heap.h:85-99 | If one weight changes, the heap is ordered but for that key. |
| `IndexedHeap.Heap.PercolateUp` | painless-v2/glucose/mtl/Heap.h:45-58 | Puts the key up to its place; index and keys stay right. |
| `IndexedHeap.Heap.PercolateDown` | painless-v2/glucose/mtl/Heap.h:61-74 | Puts the key down to its place; index and keys stay right. |
| `IndexedHeap.Heap.Insert` | painless-v2/glucose/mtl/Heap.h:101-109 | Adds the key. |
| `IndexedHeap.Heap.Update` | painless-v2/glucose/mtl/Heap.h:90-98 | Restores the order after a weight changed either way, or inserts. |
| `IndexedHeap.Heap.RemoveMin` | painless-v2/glucose/mtl/Heap.h:112-121 | Returns a least key and keeps the others. |
| `IndexedHeap.Heap.Build` | painless-v2/glucose/mtl/Heap.h:124-136 | A heap of exactly the given keys. |

## Left out

- Incremental mode, assumptions and selectors, unary watches and purgatory, certified output, and clause import and export during search.
- `reduceDB`, `simplify` and garbage collection of clause memory: clauses are numbered and none is deleted during search.
- Activities, flip activities, restart averages, and LBD bookkeeping other than the level count used for minimisation: restarts and the choice of a candidate are left open.
- `CdclSolver.Solver.PickBranchLit`: the order of the candidates is not modelled here; the heap is modelled on its own in `Heap`.
- The outer loop of `solve_` over restarts, which need not end with open restart choices.
- `CdclSolver.Solver.ComputeLbd`: counts levels as a set instead of stamping them, and without the size-based variants.
- `Preprocessor.SimpSolver.Propagate`: unit propagation at level 0 scans all live clauses instead of using the watch lists, which `Solver` models.
- Asymmetric branching, `substitute`, `implied`, the elimination heap and touched flags, and the order in which variables are tried: any sequence of eliminations is covered.
- Certified output and frozen variables in the preprocessor.
- `SharedRing.ClausesBuffer.constructor`: stands for `setNbThreads` on an empty ring as well; 32-bit overflow of ring indices is not modelled.
- Node reclamation in the queue, `getClauses` under concurrent producers, and overflow of its size counter.
- Units and equivalences exchanged by Plingeling's workers, and its memory accounting.
- `CubeTree.Treengeling.Solve`: looks at the first rounds, as many as asked for, since the loop need not end; solver instances answer through an oracle that is sound for the formula under the cube; memory limits, job threads and random swaps of nodes are left out.
- `CircuitNet.PropagateOrAnd`: is modelled on its own and is no gate of the network, because it does not follow flips.
- `CircuitNet.OrAndExact`: is about nodes that read no variable twice, as the groups of an emitted node are over different variables.
- `LocalSearch.HillClimbingSolver.ApplyFlipped`: on lists other than flips of core variables from a right state, says nothing once a count would leave its 32-bit word (`Roomy`).
- `LocalSearch.HillClimbingSolver.CheckThenApply`: likewise; clauses must have less than a third of 2^32 literals.
- Parsing of nodes, `reduce`, meta variables and the random choice of bags in the local search; 32-bit overflow of weight sums and literal counts and 8-bit overflow of histogram counts.
- `Combinations.AllTuples`: the loop at its source tests each tuple and may stop early; the model visits them all.
- File input, command lines, messages, statistics and signals.
