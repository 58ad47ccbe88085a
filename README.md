# Marble puzzle search, modelled in Dafny

The system solves a 3×3 marble puzzle on a torus. A board holds marbles
(`B` blue, `G` green, `R` red, or any other letter), empty cells `_` and
obstacles `X`. A move takes one marble one step up, down, left or right,
wrapping around the edges, into an empty cell. Each move costs the
marble's weight: 1 for blue, 3 for green, 10 for red, 0 for anything else.
Five strategies search from an initial board to a goal board: breadth-first
search (BFS), depth-first iterative deepening (DFID), A*, IDA* and
depth-first branch and bound (DFBnB). Each returns a solution string of
move labels `(r,c):ball:(r',c')` joined by `--`, a node count and a cost. A
failed search returns `no path` or `No Path`.

The model has these modules:

- `Board`: the cells and the moves.
  - A board is a row-major `seq<char>` of length 9.
  - `Move`, `LegalMove` and `Apply` define legal moves and their effect.
  - `AllMoves` lists moves in the order the successor generator uses.
  - Move sequences are checked with `Legal` and applied with `Replay`.
  - Row parsing is handled by `Split` and `ParseCells`.
  - The `BoardState` class keeps its cells in an `array2<char>`. It has two constructors, the goal test and `equals`.
  - `boardToString` is modelled, and so is the copy-and-write step that builds a successor board.
- `Costs`: the weight table and the moved-marble cost.
- `Paths`: move labels and path strings. `Paths.Decode` parses a path string back into moves, so every reported path can be checked against the moves it names.
- `Heuristics`:
  - the toroidal Manhattan distance;
  - the goal-position table;
  - the weighted nearest-same-label heuristic, shown admissible and consistent.
- `Nodes`:
  - the search node;
  - successor generation;
  - the stable sort by f = g + h;
  - `Traced`, the property every strategy keeps: a node's path decodes to legal moves that lead from the initial board to the node's board, and their total weight is its g.
- `Results`: the search result and the strategy names.
- `Reach` and `MarkedStack`: facts shared by the strategies.
  - The finite set of reachable boards.
  - Removing loops from a move sequence.
  - The stack-and-table discipline of IDA* and DFBnB, including how a node is marked out.
- `Bfs`, `Dfid`, `AStar`, `IdaStar` and `Dfbnb`: one module per strategy. Each search loop is an imperative method with its invariant.
- `Instances`: a concrete two-marble puzzle on which DFBnB's initial bound is too low.

## Model

| member | source | states |
|---|---|---|
| `Board.BoardState.FromRows` | src/BoardState.java:14-26 | The cells are what `ParseCells` reads from the rows. The tracked position is the last `_` in row-major order, and it is (0, 0) on a board with no `_`. The array is fresh. |
| `Board.ParseCells` | src/BoardState.java:14-19 | Parsing succeeds iff there are at least three rows and each has three non-empty comma-separated fields. Cell (i, j) is then the first character of field j of row i. |
| `Board.ParseRow` | src/BoardState.java:17-19 | Parsing one row succeeds iff it has three non-empty fields. The row's cells are the first characters of those fields. |
| `Board.SplitJoin` | src/BoardState.java:17 | Joining the comma-split fields again gives back the row. |
| `Board.SplitFieldsHaveNoComma` | src/BoardState.java:17 | No field of the split holds a comma. |
| `Board.LastEmptyIsLast` | src/BoardState.java:20-23 | When the board has an empty cell, the tracked cell is empty and no later cell is empty. |
| `Board.BoardState.Copy` | src/BoardState.java:29-38 | The copy has the same cells and tracked position as the original, in fresh storage. |
| `Board.BoardState.IsGoalState` | src/BoardState.java:41-50 | True iff all nine cells equal the goal's. It is therefore reflexive and symmetric. |
| `Board.BoardState.Equals` | src/BoardState.java:64-85 | True iff the other object is non-null and has equal cells. It agrees with the goal test. |
| `Board.BoardToString` | src/SearchAlgorithm.java:183-191 | The key is the row-major sequence of cells, so two boards have equal keys iff all their cells are equal. |
| `Board.CopyAndMove` | src/SearchAlgorithm.java:243-247 | The successor board is a fresh copy with the ball written into the destination and `_` into the source. The original board is left unchanged. |
| `Board.Neighbor` | src/SearchAlgorithm.java:221-238 | The wrapped index `(i + di + 3) % 3` always stays on the board. |
| `Board.NeighborsDistinct` | src/SearchAlgorithm.java:221-238 | The four toroidal neighbours of a cell are distinct from each other and from the cell. |
| `Board.ApplyLegal` | src/SearchAlgorithm.java:241-247 | A legal move empties the source cell and puts the ball in the destination. No other cell changes, and the multiset of cells is kept. |
| `Board.ApplyKeepsValid` | src/SearchAlgorithm.java:241-247 | After a move, every cell holds a character the board already held. |
| `Board.AllMovesExactly` | src/SearchAlgorithm.java:227-241 | The moves generated are exactly the legal moves. They come in row-major order of the source cell, then in the order up, down, left, right. |
| `Board.AllMovesBound` | src/SearchAlgorithm.java:227-241 | Each marble gives at most four moves. |
| `Board.LegalSnoc` | src/SearchAlgorithm.java:261-270 | Adding one legal move after a legal sequence gives a legal sequence that ends where that move leads. |
| `Board.ReplayKeepsCells` | src/SearchAlgorithm.java:243-247 | A legal sequence keeps the board's length and its multiset of cells. |
| `Costs.MoveCostLookup` | src/SearchAlgorithm.java:281-286 | The table entry of every character below 128 is its weight. |
| `Costs.MoveCostBall` | src/SearchAlgorithm.java:288-290 | The weight is 1, 3 or 10 for `B`, `G` or `R`, and 0 for every other character. |
| `Costs.IdentifyMovedMarble` | src/SearchAlgorithm.java:161-170 | Returns the reported marble. This is the old cell at the first differing cell, or the new cell when the old one is `_`, or `_` when the boards are equal. |
| `Costs.FirstDiffIs` | src/SearchAlgorithm.java:161-167 | The scan stops exactly at the first cell where the boards differ. |
| `Costs.MovedMarbleOfMove` | src/SearchAlgorithm.java:161-170 | After a legal move, the reported marble is the ball that moved. |
| `Costs.CalculateMoveCost` | src/SearchAlgorithm.java:149-159 | Returns the weight of the reported marble. For a successor reached by a legal move, this is the moving ball's weight. |
| `Paths.Label` | src/SearchAlgorithm.java:253-258 | A move label has thirteen characters. |
| `Paths.ParseLabelOfLabel` | src/SearchAlgorithm.java:253-258 | A label parses back to its move. |
| `Paths.LabelOfParse` | src/SearchAlgorithm.java:253-258 | A string that parses as a label is the label of the parsed move. |
| `Paths.EncodeSnoc` | src/SearchAlgorithm.java:261-263 | Extending a path by a label is the same as encoding the sequence with the move added at the end. An empty path becomes the label alone. |
| `Paths.DecodeEncode` | src/SearchAlgorithm.java:253-263 | A path string built from moves decodes to those moves. |
| `Paths.EncodeDecode` | src/SearchAlgorithm.java:253-263 | A string that decodes is the encoding of what it decodes to. |
| `Paths.PathCostSnoc` | src/SearchAlgorithm.java:250 | A move adds its ball's weight to the path cost. |
| `Paths.PathCostSplit` | src/SearchAlgorithm.java:269 | The cost of a sequence is the cost of a prefix plus the cost of the rest. |
| `Heuristics.GridDistance` | src/SearchAlgorithm.java:327-332 | On a 3×3 torus, each axis contributes the smaller of the direct and the wrapped difference. That is 1 when the coordinates differ and 0 otherwise. The distance is symmetric, at most 2, and 0 iff the cells coincide. |
| `Heuristics.DistTriangle` | src/SearchAlgorithm.java:327-332 | The toroidal distance satisfies the triangle inequality. |
| `Heuristics.NeighborDistance` | src/SearchAlgorithm.java:235-238 | A cell and each of its toroidal neighbours are at distance 1. |
| `Heuristics.PrecomputeGoalPositions` | src/SearchAlgorithm.java:335-348 | The table built in place is `GoalPositions(goal)`. |
| `Heuristics.GoalPositionsUpToFacts` | src/SearchAlgorithm.java:335-348 | A label is in the table iff it is a marble present on the goal. Its list is the goal's cells of that label in row-major order. |
| `Heuristics.PositionsContain` | src/SearchAlgorithm.java:338-343 | Every goal cell holding a label is on that label's list. |
| `Heuristics.LookupGoalPositions` | src/SearchAlgorithm.java:311 | The `getOrDefault` lookup of a marble gives the goal cells of its label. |
| `Heuristics.MinDistance` | src/SearchAlgorithm.java:310-314 | The running minimum, seeded with `Integer.MAX_VALUE`, is `MinDist`. It is at most every listed distance. |
| `Heuristics.MinDistAttained` | src/SearchAlgorithm.java:310-314 | On a non-empty list, the minimum is the distance to some listed cell. |
| `Heuristics.ComputeHeuristic` | src/SearchAlgorithm.java:292-324 | Returns `Heuristic(goal, b)`, the sum over marbles of weight times distance to the nearest goal cell of the same label. The goal shortcut returns that same value. The result lies in [0, 180]. |
| `Heuristics.HeuristicZeroAtGoal` | src/SearchAlgorithm.java:295-297 | The sum is 0 on the goal board, so the shortcut agrees with the formula. |
| `Heuristics.HeuristicBounds` | src/SearchAlgorithm.java:305-321 | When every marble's label is on the goal, the heuristic is between 0 and 180. |
| `Heuristics.CoveredAfterMove` | src/SearchAlgorithm.java:241-247 | A move keeps every marble's label present on the goal. |
| `Heuristics.HeuristicConsistent` | src/SearchAlgorithm.java:292-324 | For every legal move, h(parent) ≤ weight of the move + h(child). |
| `Heuristics.HeuristicAdmissible` | src/SearchAlgorithm.java:292-324 | h(b) is at most the cost of every legal sequence from b to the goal. |
| `Nodes.NewNode` | src/SearchAlgorithm.java:31-39 | The node stores its board, parent, g and path. Its h is the heuristic of its board, in [0, 180], and it is not marked out. |
| `Nodes.BuildSuccessor` | src/SearchAlgorithm.java:243-270 | The successor node of a legal move is `Child`. Its board is the moved board, its g is the parent's g plus the ball's weight, and its path is the extended path. |
| `Nodes.CellSuccessors` | src/SearchAlgorithm.java:235-274 | The successors of one marble are its children in direction order. |
| `Nodes.GenerateSuccessors` | src/SearchAlgorithm.java:210-278 | The list built is `Successors(goal, n)`. |
| `Nodes.SuccessorsAreChildren` | src/SearchAlgorithm.java:210-278 | The i-th successor is the child of the i-th generated legal move. |
| `Nodes.SuccessorsShape` | src/SearchAlgorithm.java:229-270 | For each successor: its board is the parent's with the source emptied and the destination filled, and nothing else changed; its g grows by the ball's weight; its path is the extended path; its parent is the current node; it is unmarked. There is at most one successor per legal move and four per marble. |
| `Nodes.GetSuccessorsStates` | src/SearchAlgorithm.java:76-145 | The stored successors are the generated ones, sorted stably by f. The result is sorted, a permutation of the generated list, and keeps the generation order among nodes of equal f. |
| `Nodes.SortByFFacts` | src/SearchAlgorithm.java:143 | The insertion sort gives a sorted permutation, stable for every f value. |
| `Nodes.SortByFOfSorted` | src/SearchAlgorithm.java:143 | Sorting a list that is already sorted leaves it unchanged. |
| `Nodes.StartTraced` | src/SearchAlgorithm.java:31-39 | The start node (no parent, g 0, empty path) is traced by the empty sequence. |
| `Nodes.ChildTraced` | src/SearchAlgorithm.java:250-270 | A child's path decodes to its parent's moves plus the move, so traced nodes have traced children. |
| `Nodes.TracedSolves` | src/SearchAlgorithm.java:173-180 | For a traced node on the goal, the result built from `reconstructPath` and `calculatePathCost` is a real solution, and its cost is the weight of its moves. |
| `Nodes.TracedAdmissible` | src/SearchAlgorithm.java:42-44 | The f of a traced node is at most its g plus the cost of any legal way on to the goal. |
| `Results.SelectStrategy` | src/Ex1.java:67-88 | The five names `BFS`, `DFID`, `A*`, `IDA*` and `DFBnB` select their strategies. Every other name is rejected. |
| `Results.NoPathIsNotASolution` | src/BFSSearch.java:77-82 | A failure result never passes as a solution. |
| `Reach.ReachableInUniverse` | src/BFSSearch.java:30-42 | Every reachable board lies in a finite set of boards fixed by the initial board. |
| `Reach.MakeSimple` | src/DFIDSearch.java:51-67 | Every board a legal sequence reaches can also be reached by a sequence that is no longer and repeats no board. |
| `Reach.BeforeSnoc` | src/IDAStarSearch.java:56-82 | One more move adds the board the sequence led to to the boards it passed through. |
| `Reach.SimpleSnoc` | src/IDAStarSearch.java:56-82 | A sequence that repeats no board still repeats none after a move to a board it has not passed through. |
| `Reach.Arrangements` | src/BFSSearch.java:30-42 | At most n! words of length n share a given multiset of characters. |
| `Reach.SimpleShort` | src/IDAStarSearch.java:56-82 | A legal sequence on a 3×3 board that repeats no board has fewer than 9! = 362880 moves. |
| `Paths.PathCostBound` | src/SearchAlgorithm.java:281-290 | No weight exceeds 10, so a sequence costs at most 10 per move. |
| `Bfs.EnqueueSuccessors` | src/BFSSearch.java:58-67 | The queue and the open set grow by `Admit`: the successors whose key is neither closed nor open, taken in order. |
| `Bfs.AdmitFacts` | src/BFSSearch.java:58-67 | The open set grows by exactly the enqueued keys. Each enqueued node is a successor whose key was neither closed nor open. Enqueued keys are distinct. Every successor ends up closed or open. |
| `Bfs.StartInv` | src/BFSSearch.java:11-23 | Holding only the start node, with nothing closed, satisfies the loop invariant. |
| `Bfs.ExpandKeeps` | src/BFSSearch.java:30-67 | One iteration keeps the invariant, which holds that: the open set is exactly the queued keys, distinct and disjoint from the closed set; each board is expanded once; the queue is in level order; every queued node has a shortest path. |
| `Bfs.ExpandShrinks` | src/BFSSearch.java:37-42 | A polled board is never already closed, so the skip at line 37 never fires, and closing it shrinks the set of unclosed reachable boards. |
| `Bfs.ShortPathsClosed` | src/BFSSearch.java:17-31 | Once every queued node is at least d moves deep, every board reachable in fewer than d moves is closed. |
| `Bfs.AllReachableClosed` | src/BFSSearch.java:30-73 | When the queue is empty, every reachable board is closed. |
| `Bfs.GoalFound` | src/BFSSearch.java:44-52 | A polled goal node yields a real solution with the fewest moves of any legal sequence. |
| `Bfs.Search` | src/BFSSearch.java:9-83 | A reported solution is real and uses the fewest moves, though not necessarily the least weight. `no path` with infinite cost comes only when no legal sequence reaches the goal. The count is 1 + the number of polls, and each poll expands a new board that is reachable from the start. With a solution, the goal is the last board expanded and every board reachable in fewer moves was expanded before it. With `no path`, every reachable board was expanded. The loop terminates. |
| `Bfs.ReachableSnoc` | src/BFSSearch.java:31-42 | Expanding a traced node keeps every expanded board reachable from the start. |
| `Bfs.GoalAfterShallow` | src/BFSSearch.java:30-45 | When the head of the queue is polled, every board reachable in fewer moves than its path has been expanded, or is the head's own board. |
| `Bfs.DryAllExpanded` | src/BFSSearch.java:30-82 | When the queue runs dry, every reachable board was expanded and none is the goal. |
| `Dfid.DfidReconstructPath` | src/DFIDSearch.java:71-83 | Walking the parent links and joining with `-` gives `JoinDash(ChainPaths(goalNode))`. |
| `Dfid.BranchPath` | src/DFIDSearch.java:54-83 | On a branch of empty-path wrapper nodes, that join is the `--` separated path of the branch's moves. |
| `Dfid.ExhaustedNoGoal` | src/DFIDSearch.java:57-68 | When every successor off the branch comes back empty, no simple path within the limit reaches the goal from this board. |
| `Dfid.LimitedDfs` | src/DFIDSearch.java:35-69 | Returning null means no path that avoids the branch set and is shorter than the limit reaches the goal, and the set is restored. A result is a path that decodes to legal moves to the goal, its cost is their weight, and its count is the number of successors generated along the branch. Limit 0 returns null before the goal test. |
| `Dfid.Search` | src/DFIDSearch.java:9-33 | Limits 1, 2, … are tried in order up to `maxLimit`. A result is a real solution with the fewest moves. No result means every solution has at least `maxLimit` moves. |
| `AStar.PollMin` | src/AStarSearch.java:15-27 | The polled node has the least f in the open list. |
| `AStar.RelaxSuccessors` | src/AStarSearch.java:45-55 | The open list and table grow by `Relax`: each successor whose board is unseen or recorded with a strictly larger f is recorded and pushed. |
| `AStar.RelaxMonotone` | src/AStarSearch.java:49-53 | No board leaves the table, and the recorded best f of each board never increases. |
| `AStar.RelaxSource` | src/AStarSearch.java:49-54 | Every pushed node is a successor. Every table entry is the old one or a pushed node filed under its own board. |
| `AStar.RelaxCovers` | src/AStarSearch.java:45-55 | After the loop, every successor's board is recorded with an f no larger than the successor's. |
| `AStar.SkipKeeps` | src/AStarSearch.java:36-39 | Skipping a node that the table has superseded keeps the invariant. |
| `AStar.ExpandKeeps` | src/AStarSearch.java:42-55 | Expanding a node keeps the invariant: queued and recorded nodes are traced, and every expanded node has all its neighbours recorded with a g no larger than reaching them through it. |
| `AStar.GoalOptimal` | src/AStarSearch.java:27-34 | A goal node of least f gives a real solution that costs no more than any legal sequence to the goal. |
| `AStar.EmptyNoPath` | src/AStarSearch.java:25-69 | With an empty open list, no legal sequence reaches the goal. |
| `AStar.Search` | src/AStarSearch.java:11-70 | A reported solution is real and of least cost, and the count is the size of the table. Every board in the table is reachable from the start. `No Path` with `Integer.MAX_VALUE` comes only when no legal sequence reaches the goal, and then the table holds exactly the reachable boards. |
| `AStar.TableReachable` | src/AStarSearch.java:45-55 | Every board recorded in the table is reachable from the start. |
| `AStar.EmptyHasAll` | src/AStarSearch.java:25-55 | When every recorded node has all its neighbours recorded, every board along a legal sequence from the start is recorded. |
| `AStar.EmptyTable` | src/AStarSearch.java:25-69 | With an empty open list, a board is in the table iff it is reachable from the start. |
| `MarkedStack.RemoveBoard` | src/IDAStarSearch.java:65-66 | Removing the dominated entry never makes the stack longer. |
| `MarkedStack.RemoveBoardMembers` | src/IDAStarSearch.java:65-66 | A node survives the removal iff it was on the stack and is on another board. |
| `MarkedStack.RemoveBoardBoards` | src/DFBnB.java:69-70 | The stack's boards after the removal are the old ones without the removed board. |
| `MarkedStack.RemoveAsWritten` | src/IDAStarSearch.java:65 | `ArrayDeque.remove` throws for any entry below the top, and `Stack.remove` for any entry above the bottom. The intended removal takes exactly that entry off. |
| `MarkedStack.PopMarkedOK` | src/IDAStarSearch.java:30-35 | Popping a marked node and dropping its board from the table keeps the stack-and-table invariant. |
| `MarkedStack.MarkOK` | src/IDAStarSearch.java:37-38 | Marking the top node and pushing it back keeps the invariant, and the stack then has the same boards. |
| `MarkedStack.PushOK` | src/IDAStarSearch.java:80-82 | Pushing a traced successor together with `H.put` keeps the invariant. |
| `MarkedStack.RemoveOK` | src/IDAStarSearch.java:64-67 | Removing a dominated entry from both the stack and the table keeps the invariant. |
| `MarkedStack.ChainSnoc` | src/IDAStarSearch.java:37-82 | A stack entry pushed on top keeps the chain iff its ancestors' boards are boards of marked entries and its g is at least theirs. |
| `MarkedStack.ChainRemove` | src/IDAStarSearch.java:64-67 | Removing the entry on a board with no marked entry keeps the chain and the marked entries. |
| `MarkedStack.LineageStart` | src/IDAStarSearch.java:25-27 | The start node alone is in lineage: its path is empty and simple. |
| `MarkedStack.LineagePop` | src/IDAStarSearch.java:30-35 | Popping the top keeps the lineage. |
| `MarkedStack.LineageMark` | src/IDAStarSearch.java:37-38 | Marking the top out keeps the lineage with it expanded. It is then the topmost marked entry, its g is at least every marked entry's, and its ancestors' boards and its own are marked boards. |
| `MarkedStack.UnmarkedBoard` | src/IDAStarSearch.java:58-61 | When the table's entry for a board is absent or unmarked, no stacked node on that board is marked. |
| `MarkedStack.ChildDescends` | src/SearchAlgorithm.java:243-270 | A child's ancestors are its parent's plus the parent's board, and its g is no lower. Its path is simple when its board is not among its ancestors'. |
| `MarkedStack.SuccessorsDescend` | src/SearchAlgorithm.java:210-278 | Every sorted successor of a simple traced node descends from the marked entries in that sense. |
| `MarkedStack.ExpandDescends` | src/IDAStarSearch.java:37-49 | The successors of the node just marked out descend from the stack's marked entries. |
| `MarkedStack.AdmittedSimple` | src/IDAStarSearch.java:58-61 | A descending successor whose board has no marked entry has a simple path. |
| `MarkedStack.SimpleChildBelowMax` | src/IDAStarSearch.java:50-52 | A child of a traced node with a simple path has f below `Integer.MAX_VALUE`. |
| `MarkedStack.NoChildAtMax` | src/IDAStarSearch.java:50-52 | When every expanded node is traced and simple, no child of one reaches `Integer.MAX_VALUE`. |
| `MarkedStack.ClosedExpand` | src/IDAStarSearch.java:49-83 | If each successor is expanded, stacked or at or above the bound, the expanded boards stay closed under moves up to the bound. |
| `MarkedStack.ClosedNoPath` | src/IDAStarSearch.java:29-84 | An empty stack whose expanded boards are closed means one of three things: the start is the goal, some f reached the bound, or the goal is unreachable. |
| `IdaStar.ScanSuccessors` | src/IDAStarSearch.java:50-83 | The loop's result is `Sweep` of the successors. Without a goal, the marked entries stay as they were, every stacked node has a simple path, and every successor is expanded, stacked or at least `minF`. A goal successor it returns is one of the successors, has f ≤ t, and is not on the start board. |
| `IdaStar.SweepCount` | src/IDAStarSearch.java:80 | The node count grows by exactly one per successor pushed. |
| `IdaStar.SweepMarked` | src/IDAStarSearch.java:58-61 | Every marked table entry stays unchanged through the loop. |
| `IdaStar.SweepPushed` | src/IDAStarSearch.java:50-82 | Every successor pushed has f ≤ t and is not on the goal. Its board's starting entry, if any, was unmarked and had a larger f: a marked entry makes the successor be skipped, and a worse one is replaced. |
| `IdaStar.SweepMonotone` | src/IDAStarSearch.java:52-67 | `minF` only goes down. Every board with an entry keeps one whose f is no larger, except the goal successor's board. |
| `IdaStar.SweepCovers` | src/IDAStarSearch.java:50-83 | Without a goal, `minF` is at most every f above t. Every successor within t ends with its board recorded, either marked out or with an f no larger than its own. |
| `IdaStar.SweepMinF` | src/IDAStarSearch.java:52-53 | `minF` ends as it started or as the f of a successor above t, so it is the least such f. |
| `IdaStar.SweepHit` | src/IDAStarSearch.java:71-75 | A goal node returned is an admitted goal successor with f ≤ t, dropped from the table. Every successor pushed comes before it. |
| `IdaStar.PushChain` | src/IDAStarSearch.java:64-82 | Replacing an admitted successor's entry and pushing it keeps the marked entries and the chain of simple paths. |
| `IdaStar.Iteration` | src/IDAStarSearch.java:20-85 | Each iteration starts from a fresh start node. It yields either a traced goal node other than the start, or a new threshold `minF` strictly above t (and at most `Integer.MAX_VALUE`). Every expanded node is traced and has a simple path. The new threshold `minF` is the least f above t among the children of the expanded nodes, or `Integer.MAX_VALUE` when there is no such child. In that case the start is the goal or the goal is unreachable. The disjunction "start is the goal, some child has f at least `minF`, or unreachable" also holds, but it adds little: its middle case holds as soon as one child was pruned. |
| `IdaStar.ThresholdStep` | src/IDAStarSearch.java:50-56 | One expansion without a goal keeps `minF` the least f above t among the expanded nodes' children, with the new node's children included. |
| `MarkedStack.SuccessorIsChild` | src/SearchAlgorithm.java:210-278 | Every sorted successor is the child for some legal move. |
| `IdaStar.Search` | src/IDAStarSearch.java:9-91 | A result is a real solution. `No Path` has 0 nodes and `Integer.MAX_VALUE`, and comes only when the start is the goal or the goal is unreachable. With its table keyed by board value, the model never reports a solution when the start is the goal. |
| `IdaStar.SearchCorrected` | src/IDAStarSearch.java:9-91 | The same search with the start tested first. When start = goal, the empty path with cost 0 is returned. `No Path` then means the goal is unreachable. |
| `Dfbnb.ScanSuccessors` | src/DFBnB.java:51-88 | The batch's result is `Sweep` of the sorted successors. It keeps the marked entries and the chain of simple paths. Without a goal, t is unchanged and every successor is expanded, stacked or at least t. A goal successor is one of the batch, and t becomes its f, which is no higher than before. When every successor is above t, nothing changes. |
| `Dfbnb.SweepCount` | src/DFBnB.java:84-86 | The node count grows by exactly one per successor pushed. |
| `Dfbnb.SweepPushed` | src/DFBnB.java:51-86 | Every successor pushed has f within the starting bound and is not on the goal. Its board's starting entry, if any, had a larger f, and it replaced that entry. Without a goal, the bound is unchanged. |
| `Dfbnb.SweepMonotone` | src/DFBnB.java:62-71 | The bound never rises. Every board with an entry keeps one whose f is no larger, except the goal successor's board. |
| `Dfbnb.SweepCovers` | src/DFBnB.java:51-86 | On a batch sorted by f, without a goal, every successor within the bound ends with its board recorded with an f no larger than its own. |
| `Dfbnb.SweepHit` | src/DFBnB.java:74-81 | A goal node returned beat its board's entry and is dropped from the table. The bound becomes its f, no higher than before. Every successor pushed comes before it. |
| `Dfbnb.BeatsUnmarked` | src/DFBnB.java:62-71 | A successor never beats a marked entry: that entry is an ancestor's, on the same board with the same h and a g no larger. |
| `Dfbnb.PushChain` | src/DFBnB.java:69-86 | Replacing a beaten entry and pushing the successor keeps the marked entries and the chain of simple paths. |
| `Dfbnb.PrunedBatch` | src/DFBnB.java:55-58 | When every first move has f above the bound, the start's whole batch is pruned. |
| `Dfbnb.PopProgress` | src/DFBnB.java:29-32 | Popping a marked node keeps the loop invariant: a recorded result is a real solution whose cost is the current t, and t never rises above its start. |
| `Dfbnb.ExpandReady` | src/DFBnB.java:34-49 | Marking and re-pushing the node, then sorting its successors, sets up the batch. |
| `Dfbnb.ExpandDone` | src/DFBnB.java:51-88 | After the batch, the loop invariant holds again with the node expanded and the incumbent result updated. |
| `Dfbnb.Expand` | src/DFBnB.java:34-88 | Expanding a node keeps the loop invariant. The bound t never increases, and a new result costs no more than the one it replaces. |
| `Dfbnb.Found` | src/DFBnB.java:75-81 | A goal hit replaces the incumbent with that node's path and g. Without a hit, the incumbent is kept. |
| `Dfbnb.Run` | src/DFBnB.java:14-97 | Starting from a given bound t0: a result is a real solution of cost ≤ t0. Every expanded node is traced and has a simple path. `No Path` with `Integer.MAX_VALUE` means the start is the goal, some child of an expanded node was pruned by the bound t0 (its f is at least t0), or the goal is unreachable. That disjunction is weak for a small t0. With t0 = `Integer.MAX_VALUE` it is not: then the start is the goal or the goal is unreachable. When every first move is pruned, the result is `No Path` with one node. |
| `Dfbnb.GoalStartPruned` | src/DFBnB.java:15-58 | When the start is the goal and every marble has positive weight, h(init) = 0 and every first move is pruned. |
| `Dfbnb.Search` | src/DFBnB.java:11-98 | The bound starts at h(initial). A result is a real solution that is also cheapest, because its cost is at most h(initial) and h is admissible. If every solution costs more than h(initial), none is reported. |
| `Dfbnb.SearchCorrected` | src/DFBnB.java:11-98 | The start is tested first and the bound starts at `Integer.MAX_VALUE`. Start = goal gives the empty path with cost 0. `No Path` then means the goal is unreachable. |
| `Instances.PairHeuristic` | src/SearchAlgorithm.java:292-324 | On a blue-and-red board, the heuristic toward the swap goal is the blue marble's distance plus ten times the red marble's. |
| `Instances.StartHeuristic` | src/DFBnB.java:15 | On the swap puzzle, the initial bound h(init) is 11. |
| `Instances.FirstMovesPruned` | src/DFBnB.java:55-58 | Every first move of the swap puzzle has f above 11. |
| `Instances.SwapSolves` | src/SearchAlgorithm.java:210-278 | Three legal moves of total cost 12 swap the two marbles. |
| `Instances.BoundBelowCheapest` | src/DFBnB.java:15-58 | On the swap puzzle, every first move is pruned, even though a solution of cost 12 exists. |
| `Instances.SwapSearches` | src/DFBnB.java:11-98 | On the swap puzzle, the search as written reports `No Path` with one node. The corrected search reports a real solution whenever it does not run out of fuel. |
| `Instances.SwapBoards` | src/DFBnB.java:15 | The swap puzzle's start and goal exist. |

## Left out

- Input and output: reading `input.txt`, writing `output.txt`, wall-clock timing, and every printing block (`printOpenList`, `toString`). Only the choice of strategy by name is modelled (`Results.SelectStrategy`).
- `SearchResult` is a datatype whose cost is an integer or infinity. It has no `double` and no runtime.
- Tables and sets are keyed by board value. `BoardState` overrides `equals` but not `hashCode`, so the Java tables work by object identity. In the running program this makes these checks almost never fire:
  - DFID's branch check;
  - the A* stale-entry skip at src/AStarSearch.java:37;
  - the A* successor test at src/AStarSearch.java:49;
  - the IDA* and DFBnB dominance tests.

  The model gives them the value meaning the code is written for. The A* successor test changes the most. In the running program it never fires, so every successor is pushed and `bestNodes.size()` counts the start plus every push, not the distinct boards the model counts. A move can always be undone, so each expanded node has at least one successor. Once the start has a legal move, the Java open list therefore never empties. On an unreachable goal the Java never reaches the `No Path` return at line 69; it keeps searching until memory runs out. `AStar.EmptyNoPath`, `AStar.EmptyTable` and the `No Path` case of `AStar.Search` describe that return under value keys. In the Java it is reached only when the start has no legal move.
- `SearchNode.hashCode` and `SearchNode.equals` are not modelled. Removing a dominated entry from the stack is modelled as removing that entry (`MarkedStack.RemoveBoard`). What the Java removal does instead is recorded under Findings.
- The marked-out flag is part of the node value, and marking replaces the top stack entry. Aliasing between the stack and the table is not modelled: the table entry is updated along with the stack.
- Java `int` overflow is not modelled; integers are unbounded. The weights are at most 10 and h is at most 180. In IDA* and DFBnB no expanded node's path repeats a board, so it has fewer than 9! moves. The f of every child of an expanded node is therefore proved to stay below `Integer.MAX_VALUE` (`MarkedStack.NoChildAtMax`).
- `MOVE_COST_LOOKUP` is only indexed with characters below 128, and every marble label on a board must occur on the goal. Both are preconditions (`ValidGrid` and `Covered`), which keeps the `Integer.MAX_VALUE * cost` term out of the heuristic.
- Termination:
  - A*, IDA* and DFBnB take a `fuel` bound, and `None` means the fuel ran out.
  - DFID's unbounded deepening loop takes `maxLimit`.
  - BFS is proved to terminate.
- A* computes `newPathCost` at line 46 and never uses it, so the model leaves it out. By `Costs.CalculateMoveCost` it would equal the successor's g.
- Ties in `PriorityQueue.poll`: Java's order among nodes of equal f is unspecified. `AStar.PollMin` picks the first such node.
- `Board.BoardState.FromRows` requires rows that parse. Rows that make the Java constructor throw are described by `Board.ParseCells` returning `None`.
- DFID's branch set is passed in and returned, not shared by reference. On success, the Java leaves entries in the set; the model does not track them, and the search ends there anyway.
- DFBnB's mark test at line 64 is left out. It tests the fresh successor, which is never marked, so that branch never fires.
- `IdaStar.Search` and `Dfbnb.SearchCorrected`: optimality is not proved for IDA* or for DFBnB with the `Integer.MAX_VALUE` bound. Their contracts state soundness, and completeness: `No Path` only for an unreachable goal, or a start on the goal in IDA* as written.
- `IdaStar.Iteration` and `Dfbnb.Run`: their node counts have only lower bounds. Within one expansion the count is exact (`IdaStar.SweepCount`, `Dfbnb.SweepCount`).
- `Bfs.Search` and `AStar.Search`: the count is stated against the ghost record of expanded boards (BFS) or table boards (A*). On `No Path` that record is exactly the reachable boards, so the count is fixed: 1 + the number of reachable boards for BFS, the number of reachable boards for A*. When a solution is found the record is only bounded: it holds only reachable boards, and for BFS it holds every board reachable in fewer moves than the solution. Only DFID's count is fixed by the inputs in every case (`Dfid.Search`).

## Findings

| source | as written | input that shows it | evidently intended | confidence | as-written member | corrected member |
|---|---|---|---|---|---|---|
| src/IDAStarSearch.java:65 | `L.remove(existingNode)` calls `SearchNode.equals`, which casts the other `SearchNode` to `BoardState` and throws `ClassCastException` unless the first element it compares is the entry itself. | A stack of two or more entries where the dominated entry is not on top (also `src/DFBnB.java:69`, where `Stack.remove` compares from the bottom). | Remove that entry from the stack. | not executed; low — only a table hit reaches it, and identity hashing makes table hits rare | `MarkedStack.RemoveAsWritten` | `MarkedStack.RemoveBoardBoards` |
| src/IDAStarSearch.java:25-78 | Only successors are goal-tested, never the start node. | Initial and goal board both `B,_,_ / _,_,_ / _,_,_`. Traced by hand, the Java's identity-keyed table never matches the start's board again. It returns the round trip `(1,1):B:(1,2)--(1,2):B:(1,1)` at cost 2 with 5 nodes, instead of the empty path. In the model the table is keyed by value, so the marked start entry blocks the round trip and no solution is reported. | Return the empty path at cost 0, as BFS, DFID and A* do. | not executed; high | `IdaStar.Search` | `IdaStar.SearchCorrected` |
| src/DFBnB.java:22-81 | Only successors are goal-tested, never the start node. | Initial board equal to the goal board, with every marble blue, green or red. | Return the empty path at cost 0. | not executed; high | `Dfbnb.Search` | `Dfbnb.SearchCorrected` |
| src/DFBnB.java:15 | The bound t starts at h(init). h is a lower bound, so every successor on a solution costing more than h(init) is pruned. | Start `R,B,_ / _,_,_ / _,_,_`, goal `B,R,_ / _,_,_ / _,_,_`: h = 11, the cheapest solution costs 12, and the search reports `No Path`. | An upper bound, such as `Integer.MAX_VALUE`, that only tightens when solutions are found. | not executed; high | `Instances.BoundBelowCheapest` | `Dfbnb.SearchCorrected` |
