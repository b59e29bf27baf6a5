# Classical search and backtracking routines of the Monopoly AI demos

This project is a Dafny model of the algorithmic core of
`Test-main/ai_concepts.js`. That file holds the search, inference and
constraint-solving demonstrations that sit beside the Monopoly board. The
model covers:

- **Graph search** (`bfs`, `dfs`, `greedy`, `ucs`, `astar`) over an adjacency
  map whose missing keys mean "no successors".
  - Modules `Graph`, `GraphSearch` and `CostSearch`.
  - Each search is a method with a `while` loop over a frontier of paths,
    proved against the independent notions "path from start to goal",
    "reachable", "fewest edges" and "cheapest".
  - `ucs` and `astar` share one loop, `CostSearch.BestFirst`. They differ
    only in the key given to each frontier entry.
- **Adversarial search** (`minimax`, `alphabeta`) over an implicit tree in
  which every inner node has two children. Module `Adversarial`.
  - Pure recursive functions, with an extended-integer `Bound` for the
    infinite initial values.
  - Alpha-beta is proved to satisfy the fail-soft window property with
    respect to minimax. Equality follows at the full window.
- **Rule inference** (`forwardChain`, `backwardChain`) over the facts cash,
  complete sets and debt. Module `Rules`.
- **The SEND + MORE = MONEY cryptarithm**. Module `Cryptarithm`.
  - A `Solver` class with the `used` array, the `assign` map and the `found`
    slot.
  - Its recursive `Backtrack` is proved sound, and proved to leave the state
    as it found it on a failed branch. A failed branch also proves that no
    solution extends the current assignment.
- **Even house building** (`isConsistent`, `backtrack`). Module
  `EvenBuilding`.
  - The in-place array backtracking is proved equal to a specification
    function `Search`.
  - `Search` is proved complete against an order-free condition. It
    succeeds exactly when no house is asked for, or when some first house
    keeps the group even and all `N` houses fit under the cap of four per
    lot.
- **The cash-target planner** (`apply`/`revert`, `prefixGain`,
  `legalAfterApply`, `dfs`). Module `Planner`.
  - A `Search` class holds the scratch state, the picks and the best plan.
  - Its take/skip depth-first search with branch-and-bound is proved to
    return a plan of least penalty among all legal selections whose gains
    reach the target. It is also proved to report "no feasible plan"
    exactly when there is none.

### Where the code and its comments disagree

The model follows the code in each case.

- **Rule R2.** Its comment in `forwardChain` reads "cash > houseprice", but
  the code (and `backwardChain`) compares cash with the fixed value 100.
  `Rules.CanBuild` uses 100.
- **Even building.** The backtracking takes a start index `idx`, but the code
  uses it only in the `idx >= arr.length` test. Each level's loop starts
  again at lot 0, and `EvenBuilding.Search` does the same.
- **`astar` on the demo graph.** The demo heuristic `max(0, goal - n)` on
  `buildGraph`'s unit-cost graph is not admissible
  (`CostSearch.DemoInadmissible`). So `astar`'s cheapest-path promise holds
  only for admissible heuristics, and the demo is not one of them.

### Frontier order

The code sorts the frontier stably and then shifts it. The model removes
the first entry of least key instead (`GraphSearch.PopMin`), which picks the
same entry:

- after a stable sort, entries with equal keys keep their relative order;
- new entries are appended at the end;
- so entries with equal keys always stand in insertion order.

## Model

| member | source | states |
|---|---|---|
| GraphSearch.Bfs | Test-main/ai_concepts.js:49-64 | A returned path leads from start to goal along edges and has no more nodes than any such path; None exactly when the goal is unreachable |
| GraphSearch.EnqueueUnvisited | Test-main/ai_concepts.js:56-61 | Appends the current path extended by one successor for each successor not yet visited, each such node once; the visited set grows by exactly the listed successors |
| GraphSearch.BfsExpand | Test-main/ai_concepts.js:53-61 | One pass of the bfs loop for a front path that does not end at the goal keeps the search invariant with its end node expanded, and either adds a node to the visited set or shortens the queue |
| GraphSearch.Dfs | Test-main/ai_concepts.js:66-80 | A returned path leads from start to goal; None exactly when the goal is unreachable; the ghost list of expanded nodes has no repeats, holds only nodes reachable from start, and when None is returned holds every node reachable from start |
| GraphSearch.PushReversed | Test-main/ai_concepts.js:75-77 | The successors are pushed in reverse, so the first listed successor is on top of the stack |
| GraphSearch.PopMin | Test-main/ai_concepts.js:107-108 | The entry taken has the least key, and no entry before it has an equal key, as a stable sort followed by a shift gives |
| GraphSearch.PushRanked | Test-main/ai_concepts.js:114-116 | Each successor is appended with its heuristic as key and the path extended by it |
| GraphSearch.Greedy | Test-main/ai_concepts.js:103-119 | A returned path leads from start to goal; None exactly when the goal is unreachable; the ghost list of expanded nodes has no repeats, holds only nodes reachable from start, and when None is returned holds every node reachable from start |
| CostSearch.Relax | Test-main/ai_concepts.js:92-98 | The frontier is only appended to; each new entry extends the path by one successor, carries the path's cost and its key, and strictly beats the best cost recorded for that node; best costs only fall, every successor ends with a best cost at most its new cost, and every changed best cost has a matching new entry |
| CostSearch.RelaxOne | Test-main/ai_concepts.js:92-97 | For one successor: when it has no best cost or the new cost strictly beats it, its best cost becomes the new cost and an entry with the new cost, its key and the extended path is appended; otherwise nothing changes |
| CostSearch.Expand | Test-main/ai_concepts.js:88-98 | One pass of the ucs/astar loop after taking an entry that does not end at the goal keeps the search invariant with that node expanded, and lowers the termination measure (new nodes in best, else a lower sum of best costs, else a shorter frontier) |
| CostSearch.BestFirst | Test-main/ai_concepts.js:82-101 | A returned path leads from start to goal; None exactly when unreachable; every path to the goal has a node whose key is at least the returned path's key |
| CostSearch.Ucs | Test-main/ai_concepts.js:82-101 | A returned path leads from start to goal at least cost among all such paths; None exactly when unreachable |
| CostSearch.AStar | Test-main/ai_concepts.js:121-140 | A returned path leads from start to goal; None exactly when unreachable; with an admissible heuristic it is a cheapest path |
| CostSearch.CheapestByEstimate | Test-main/ai_concepts.js:125-134 | With the key equal to the cost plus an estimate that never overestimates, the frontier bound makes the returned path a cheapest one. ucs is the case of the estimate 0 and astar that of an admissible heuristic |
| CostSearch.DemoInadmissible | Test-main/ai_concepts.js:44-45 | The demo heuristic overestimates the cost from node 0 to node 6 on the demo graph |
| Adversarial.MaxB | Test-main/ai_concepts.js:147 | `Math.max` on extended integers is an upper bound of both arguments and one of them |
| Adversarial.MinB | Test-main/ai_concepts.js:153 | `Math.min` on extended integers is a lower bound of both arguments and one of them |
| Adversarial.Minimax | Test-main/ai_concepts.js:142-157 | The minimax value of a finite tree is always finite |
| Adversarial.MinimaxLoop | Test-main/ai_concepts.js:144-156 | The child fold never lowers the running maximum nor raises the running minimum, and yields a finite value once a child is seen |
| Adversarial.MinimaxAttained | Test-main/ai_concepts.js:142-157 | The minimax value is the value of some leaf reached by a sequence of moves of the given depth |
| Adversarial.AlphaBeta | Test-main/ai_concepts.js:159-178 | The alpha-beta value is always finite. Its agreement with minimax is stated by Adversarial.AlphaBetaFailSoft and Adversarial.AlphaBetaFullWindow |
| Adversarial.AlphaBetaLoop | Test-main/ai_concepts.js:161-177 | The cut-off child loop never lowers the running maximum nor raises the running minimum, and its value is finite once a child has been searched |
| Adversarial.AlphaBetaFailSoft | Test-main/ai_concepts.js:159-178 | For alpha below beta: strictly inside the window alpha-beta equals minimax; when minimax is at or below alpha the result lies between minimax and alpha; when it is at or above beta the result lies between beta and minimax |
| Adversarial.LoopFailSoft | Test-main/ai_concepts.js:161-177 | The cut-off child loop of alpha-beta stays within the fail-soft relation to the full child loop of minimax |
| Adversarial.AlphaBetaFullWindow | Test-main/ai_concepts.js:159-178 | Alpha-beta from minus to plus infinity returns exactly the minimax value, for every depth and player |
| Rules.ForwardChain | Test-main/ai_concepts.js:208-219 | One or two distinct recommendations, each one of the three advices or "no action"; each rule's advice is present exactly when its condition holds; "no action" exactly when no rule fires, and then alone; the debt advice comes first when it fires. Since building and liquidity never fire together, this fixes the list |
| Rules.BackwardChain | Test-main/ai_concepts.js:220-238 | One step for each recognised goal and none otherwise; the step for each goal is chosen exactly by its rule condition |
| Rules.BackwardReport | Test-main/ai_concepts.js:254 | The two-goal report has a solvency step followed by an income step |
| Rules.ChainsAgree | Test-main/ai_concepts.js:214-235 | Backward chaining asks to raise cash exactly when forward chaining advises mortgaging, and to build exactly when it advises building |
| Rules.BuildExcludesLiquidity | Test-main/ai_concepts.js:215-216 | The building and liquidity advice never appear together |
| Rules.NoActionCharacterised | Test-main/ai_concepts.js:240-245 | For the non-negative facts the demo reads, "no action" is the answer exactly when cash is at least 100, building is impossible and the debt is covered |
| Cryptarithm.Val | Test-main/ai_concepts.js:265-267 | A word of digits decodes to a number below 10 to the word's length |
| Cryptarithm.ValIsPositional | Test-main/ai_concepts.js:265-267 | The left fold `acc*10 + digit` equals the positional base-10 value of the word |
| Cryptarithm.KnownIsSolution | Test-main/ai_concepts.js:268-278 | The assignment 9567 + 1085 = 10652 satisfies every constraint, so a solution exists |
| Cryptarithm.Solver.constructor | Test-main/ai_concepts.js:261-263 | Starts with no digit used, nothing assigned and nothing found |
| Cryptarithm.Solver.AssignNext | Test-main/ai_concepts.js:284 | Assigning an unused digit to the next letter keeps the assignment injective and the used array in step with the digits assigned |
| Cryptarithm.Solver.UsedDigitExcluded | Test-main/ai_concepts.js:283 | A digit already used cannot be the next letter's digit in any solution extending the assignment |
| Cryptarithm.Solver.FailedDigit | Test-main/ai_concepts.js:286-287 | If no solution extends the assignment with digit d, no solution extending the assignment gives the letter d |
| Cryptarithm.Solver.CheckComplete | Test-main/ai_concepts.js:273-280 | At a full assignment: success exactly records a solution with its three values; failure proves the assignment is not a solution |
| Cryptarithm.Solver.Backtrack | Test-main/ai_concepts.js:272-290 | Success yields a solution extending the assignment, recorded in found; failure restores used and assign and proves no solution extends the assignment |
| Cryptarithm.Solve | Test-main/ai_concepts.js:259-291 | A solution is found: injective, S and M non-zero, and SEND + MORE = MONEY with the values recorded |
| EvenBuilding.MinOfIsLeast | Test-main/ai_concepts.js:437 | The minimum is an element and no element is below it |
| EvenBuilding.MaxOfIsGreatest | Test-main/ai_concepts.js:438 | The maximum is an element and no element is above it |
| EvenBuilding.ConsistentMeans | Test-main/ai_concepts.js:436-440 | The min/max check holds exactly when every two lots differ by at most one house and every lot holds between 0 and 4 |
| EvenBuilding.RoomForOneMore | Test-main/ai_concepts.js:449-453 | A consistent group with room left always admits one consistent increment |
| EvenBuilding.Search | Test-main/ai_concepts.js:444-457 | A result has the same length, holds the houses still to place on top of the input, never lowers a lot, and is consistent when a house was placed |
| EvenBuilding.TryFrom | Test-main/ai_concepts.js:449-456 | A result from the increment loop has the right sum, never lowers a lot and is consistent |
| EvenBuilding.TryFromSome | Test-main/ai_concepts.js:449-456 | The loop from lot j succeeds exactly when some lot from j on admits a consistent increment that leads to a result |
| EvenBuilding.SearchComplete | Test-main/ai_concepts.js:444-457 | The search succeeds exactly when nothing is left to place, or some first house keeps the group consistent and the final total fits under four houses per lot |
| EvenBuilding.Backtrack | Test-main/ai_concepts.js:444-457 | The in-place array search returns the specification's result; on success the array holds it, on failure the array is as it was |
| EvenBuilding.Distribute | Test-main/ai_concepts.js:459-460 | Success exactly when no house is asked for, or some first house keeps the group consistent and the final total fits under four per lot; the result then holds N more houses, never fewer on any lot, and is consistent when N is positive |
| EvenBuilding.ThreeEmptyLots | Test-main/ai_concepts.js:444-457 | Three houses on three empty lots give one house on each |
| Planner.RevertApply | Test-main/ai_concepts.js:337-355 | Revert after apply restores the cash and the mortgage list exactly, and every effective house count when the lot has no explicit zero over its board count |
| Planner.RevertApplyZeroed | Test-main/ai_concepts.js:354-355 | Without that proviso a lot with an explicit zero comes back with its board count |
| Planner.SpreadMeansEven | Test-main/ai_concepts.js:381-382 | With counts between -1 and 10 the sentinel min/max test is exactly pairwise evenness |
| Planner.PrefixGain | Test-main/ai_concepts.js:372-374 | Entry k is the total gain of the actions from k on |
| Planner.Search.constructor | Test-main/ai_concepts.js:370-371 | Empty scratch state and picks, no best plan |
| Planner.Search.LegalAfterApply | Test-main/ai_concepts.js:376-385 | A mortgage is always legal; a sale is legal exactly when its group passes the spread test over the scratch counts |
| Planner.Search.TryTake | Test-main/ai_concepts.js:394-400 | Restores picks, cash and mortgages; the best penalty does not grow; every reaching legal plan that takes the action costs at least the best |
| Planner.Search.Dfs | Test-main/ai_concepts.js:388-404 | Restores picks, cash and mortgages; the best penalty does not grow and stays a legal reaching plan; every reaching legal plan below the node costs at least the best |
| Planner.Search.Branch | Test-main/ai_concepts.js:394-403 | After take then skip, every reaching legal plan below the node costs at least the best |
| Planner.Plan | Test-main/ai_concepts.js:304-407 | Nothing needed exactly for target 0; infeasible exactly when no legal selection reaches the target; otherwise a legal reaching plan with its picks and a penalty no reaching plan beats |

## Left out

- Presentation: the HTML, the click handlers, the tile decorations and the timer retry. The demos' input parsing and clamping is modelled only as natural-number parameters.
- The board: building the planner's candidate actions from the board squares (lines 307-357), with `ownsCompleteSet`, `isEvenSellLegal`, the penalty table and `Math.round(price*0.5)`. Actions come in as a list of records, and the board appears only as a house count and a group for each lot.
- The no-op rule filter (lines 360-364).
- The sort of the actions by penalty per dollar (line 367). The planner's optimality is proved for every order of the list, so the order is not needed.
- Planner.Plan: requires that the list sells on each lot at most once, which the enumeration guarantees because it emits at most one sale per lot. Without that, the sell revert quirk shown by `Planner.RevertApplyZeroed` can make revert miss the count it saved.
- Planner.Plan: the plan's description strings and the total-gain line are not modelled.
- Planner.Plan: does not state which of several equally cheap plans is returned. The search keeps the first one it finds, because it replaces the best plan only on a strictly lower penalty, but the contract promises only a plan of least penalty.
- Adversarial.Minimax: the zero-argument `evalFn` callback is modelled as a pure function of the leaf's position. A stateful or random callback would be called a different number of times by the two searches, so the equivalence would not hold for it.
- Adversarial.AlphaBetaFailSoft: stated only for windows with alpha below beta. The full window of `Adversarial.AlphaBetaFullWindow` is one of them. An empty window, which the file never passes, is not covered.
- Cryptarithm.Solve: does not state which of the solutions is found first. It states only that the result is a solution.
- Edge costs are natural numbers and the model does not restrict the heuristic. JavaScript numbers are modelled as unbounded integers: every quantity in these routines is a small integer, so no rounding arises.
- `buildGraph` appears only as `Graph.DemoGraph`. No search result on it is proved; the one property proved about it is that its heuristic is not admissible.
