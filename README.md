# 8-puzzle solver core, modelled in Dafny

This project models the algorithmic core of an 8-puzzle game written in TypeScript.

- **The board (`board.dfy`).** A board is the 3x3 grid in row-major order, with 0 as the blank. This covers the goal board, the scramble profiles, the swap, the legal moves and the Manhattan distance.
- **The solver helpers (`solver.dfy`).**
  - the heuristic cost;
  - the inversion-parity solvability test;
  - the goal test;
  - the detection of the tile that moved;
  - the reconstruction of the solution path from parent links.
- **The leaves of the A\* search and the shape the search keeps between rounds (`searchtree.dfy`).**
  - A leaf's parent is the index of the parent in the append-only `explored` list.
  - `Tree` is the invariant: the explored leaves form an arena, and the frontier hangs off it. No state is held twice across the two lists. The root's board is held, and every non-root leaf held in the two lists has its depth within `moves` and its total cost within `maxCost`. The exact counter values, raised by every generated child whether it is admitted or dropped as a duplicate, are part of `Expand`'s contract.
  - `Closed` says that every explored leaf has its neighbours held.
- **The `DecisionTree` class (`decisiontree.dfy`).**
  - It has the fields of the source and methods that update them in place: `FindBestLeaf`, `GenerateNextDepthStates` and `AStarSearch`.
  - The body of `aStarSearch`'s loop is split into three helper methods:
    - `Expand`: one round that does not reach the goal;
    - `AdmitChildren`, `AdmitNext` and `AdmitChild`: the inner `for … of` loop, one pass of it, and the dedupe-and-count step of that pass;
    - `PathTo`: the path returned when the goal is reached.
  - The body of `generateNextDepthStates`' loop that builds one child is the module-level method `SlideChild`.
  - The search is proved to terminate. A returned path is a legal walk from the root board to the goal. When it returns nothing, the frontier is empty and no walk from the root reaches the goal.
- **The scramble loop of `asyncScramblePuzzle` (`scramble.dfy`).**
  - It is driven for a given number of timer callbacks, and each random choice is a nondeterministic one.
  - A resolved board is reached by legal moves and meets both targets. It is solvable whenever the input was.
- **The end-of-game feedback table and its first-match lookup (`gifhelper.dfy`).** This includes JavaScript's first-occurrence `replace`.
- **`formatTime` (`utils.dfy`).** This includes the decimal rendering of integers, which is modelled with its inverse.

`wrappers.dfy` holds the `Option` type used for `null`/`undefined`.

## Model

| member | source | states |
|---|---|---|
| Board.ScoresTable | src/lib/game-helper.ts:3-7 | easy needs 5 moves and distance 10, medium 25 and 15, hard 30 and 20 |
| Board.JsRem | src/lib/game-helper.ts:27-29 | JavaScript `%`: equals the Euclidean remainder for a non-negative dividend; for a negative one it lies in (-b, 0] and is 0 or the Euclidean remainder minus b |
| Board.IndexOf | src/lib/game-helper.ts:18 | `indexOf` is -1 exactly when the value is absent; otherwise it gives the first index that holds the value |
| Board.AllValuesPresent | src/lib/game-helper.ts:18 | a board (nine distinct values 0..8) holds every value 0..8, so `indexOf(0)` finds the blank |
| Board.BlankOfBoard | src/lib/game-helper.ts:18 | on a board the blank index is a cell in 0..8 that holds 0 |
| Board.BoardIndexOf | src/lib/decision-tree.ts:90 | on a board, `indexOf(b[i])` is `i` |
| Board.Swap | src/lib/game-helper.ts:10-14 | the copy has cells i and j exchanged and every other cell unchanged |
| Board.SwapInvolution | src/lib/game-helper.ts:10-14 | swapping the same cells twice restores the array |
| Board.SwapKeepsBoard | src/lib/game-helper.ts:10-14 | a swap keeps the multiset of tiles, so it maps boards to boards |
| Board.MovesFromNeighbours | src/lib/game-helper.ts:17-32 | the offered cells are exactly the grid neighbours of the blank, with no duplicates: 2 in a corner, 3 on an edge, 4 in the centre |
| Board.ValidMovesAreNeighbours | src/lib/game-helper.ts:17-32 | on a board `getValidMoves` gives 2 to 4 distinct cells, exactly those adjacent to the blank, and never wraps across a row |
| Board.ValidMovesCount | src/lib/game-helper.ts:17-32 | the number of moves is 2, 3 or 4, by where the blank stands |
| Board.MoveIsReversible | src/lib/game-helper.ts:72-79 | after a move the blank stands at the moved cell; the old blank cell is then a valid move, and taking it restores the board |
| Board.Successors | src/lib/game-helper.ts:72-79 | the k-th successor is the board with the k-th valid move swapped into the blank |
| Board.StepKeepsBoard | src/lib/game-helper.ts:72-79 | a legal move leads from a board to a board, and can be undone by a legal move |
| Board.WalkBoards | src/lib/game-helper.ts:61-84 | every board on a walk of legal moves is a board |
| Board.CalculateManhattanDistance | src/lib/game-helper.ts:35-51 | the sum of the tile distances is 0 exactly when every cell contributes 0 |
| Board.TileDistanceZero | src/lib/game-helper.ts:37-47 | a tile adds 0 to the Manhattan sum exactly when it stands on cell `value - 1` |
| Board.ManhattanOfSolved | src/lib/game-helper.ts:35-51 | the goal board is at Manhattan distance 0 |
| Board.ManhattanZeroIffSolved | src/lib/game-helper.ts:35-51 | on a board the Manhattan distance is 0 if and only if the board is `SOLVED_STATE` |
| Board.SolvedIsBoard | src/lib/game-helper.ts:1 | `SOLVED_STATE` is a board whose blank is in the last cell |
| Solver.DistanceFromGoal | src/lib/solver.ts:12-21 | between two cells of the grid the distance is at most 4, and 0 exactly from a cell to itself |
| Solver.DistanceProperties | src/lib/solver.ts:12-21 | on the grid `distanceFromGoal` is symmetric |
| Solver.GoalIndexIsIndexOf | src/lib/solver.ts:28 | the closed-form goal cell equals `SOLVED_STATE.indexOf(tile)` for every value |
| Solver.HeuristicPrefix | src/lib/solver.ts:26-31 | after the first n cells, the reduce's running total of values 0..8 equals the running total of `calculateManhattanDistance` |
| Solver.HeuristicCost | src/lib/solver.ts:23-32 | `heuristicCost` equals `calculateManhattanDistance` on every array of values 0..8 |
| Solver.HeuristicZeroIffSolved | src/lib/solver.ts:23-32 | on a board the heuristic is 0 if and only if the board is solved |
| Solver.IsSolved | src/lib/solver.ts:62-64 | solved exactly when there are nine cells, each equal to the goal's cell |
| Solver.IsSolutionExists | src/lib/solver.ts:34-47 | the nested loops return whether the inversion count, ignoring the blank, is even |
| Solver.BelowZeroIff | src/lib/solver.ts:38-42 | a tile has no inversions with the later tiles exactly when it is inverted with none of them |
| Solver.InversionsZeroIffInOrder | src/lib/solver.ts:34-47 | the inversion count whose parity decides `isSolutionExists` is 0 exactly when no two tiles, the earlier one first, form an inversion |
| Solver.SolvedIsSolvable | src/lib/solver.ts:34-47 | the goal board has no inversion, so it is solvable |
| Solver.SwapTilesFlipsSolvable | src/lib/solver.ts:34-47 | exchanging two non-blank tiles flips the verdict |
| Solver.MoveKeepsSolvable | src/lib/solver.ts:34-47 | sliding a tile into the blank by a valid move keeps the verdict |
| Solver.BlankSwapKeepsSolvable | src/lib/solver.ts:34-47 | exchanging the blank with a cell 1 or 3 away keeps the verdict |
| Solver.FirstMoved | src/lib/solver.ts:66-67 | the first index whose tile is non-zero and differs from the other grid, with no earlier such index; none if there is no such index |
| Solver.FindMovedElement | src/lib/solver.ts:66-67 | the result is non-zero exactly when some tile of the first grid is not matched in the second, and is then the tile at the first such index: no earlier index holds an unmatched tile |
| Solver.FindMovedTile | src/lib/solver.ts:66-67 | between a board and the board after one move, `findMovedElement` is the tile that slid |
| Solver.Ancestry | src/lib/solver.ts:54-57 | the chain of parent states is non-empty and starts with the node's own state |
| Solver.RootOf | src/lib/solver.ts:54-57 | the chain ends at a node that has no parent |
| Solver.Reversed | src/lib/solver.ts:59 | `reverse`: same length, and element k is element n-1-k of the input |
| Solver.ReverseSolutionPath | src/lib/solver.ts:50-60 | the path is the reversed chain of parent states, from the root down to the node |
| Solver.AncestryShape | src/lib/solver.ts:50-60 | in a rooted arena the chain has depth + 1 states, ends at the start board, and each state is one legal move from the next one |
| Solver.ChainIsWalk | src/lib/solver.ts:50-60 | the reversed chain is a legal walk from the start board to the node's state, of length depth + 1 |
| SearchTree.NewLeaf | src/lib/decision-tree.ts:11-17 | the cost is the heuristic of the state (≥ 0), and the total cost is depth + cost, which is ≥ the depth |
| SearchTree.NewLeafAtGoal | src/lib/decision-tree.ts:11-17 | on a board, a leaf's total cost equals its depth if and only if the board is solved |
| SearchTree.Remove | src/lib/decision-tree.ts:61 | `splice(i, 1)`: one element shorter, with the others kept in order |
| SearchTree.HasState | src/lib/decision-tree.ts:117-124 | `some` over `toString()` equality holds exactly when some leaf of the list holds the state |
| SearchTree.AdmittedShape | src/lib/decision-tree.ts:115-127 | the frontier after the loop starts with the old frontier and adds at most one leaf per child, each of them a child |
| SearchTree.RaisedMovesBounds | src/lib/decision-tree.ts:129 | `moves` after the loop is at least its old value and every child's depth, and equals one of them |
| SearchTree.RaisedMaxCostBounds | src/lib/decision-tree.ts:130 | `maxCost` after the loop is at least its old value and every child's total cost, and equals one of them |
| SearchTree.LeafIsBoard | src/lib/decision-tree.ts:83-101 | every leaf of a tree rooted at a board holds a board |
| SearchTree.PopKeepsTree | src/lib/decision-tree.ts:61-62 | moving a frontier leaf to the end of `explored` keeps the tree invariant, and keeps every expanded leaf expanded |
| SearchTree.PopDistinct | src/lib/decision-tree.ts:61-62 | after the move, no state appears twice within or across the two lists |
| SearchTree.PushDistinct | src/lib/decision-tree.ts:116-127 | a child whose state neither list holds keeps every state in one place when pushed |
| SearchTree.AdmitKeepsTree | src/lib/decision-tree.ts:115-131 | admitting a child and raising the counters to it keeps the tree invariant; the child's state is held afterwards, and nothing held before is lost |
| SearchTree.CoveredRaise | src/lib/decision-tree.ts:129-130 | raising `moves` and `maxCost` keeps every leaf's depth and total cost within them |
| SearchTree.ClosedAfterExpansion | src/lib/decision-tree.ts:113-131 | once every child of the last explored leaf is held, every board one move from it is held |
| SearchTree.ExploredBound | src/lib/decision-tree.ts:104 | while the frontier is not empty, `explored` is smaller than the finite set of all 9-cell arrays over 0..8 |
| SearchTree.ArenaRooted | src/lib/decision-tree.ts:108 | the explored leaves, viewed as `Node`s, form a rooted arena, and a leaf that fits the tree hangs off it |
| SearchTree.WalkStaysExplored | src/lib/decision-tree.ts:104-132 | with an empty frontier and everything explored expanded, every board on a walk from an explored board is explored |
| SearchTree.GoalUnreachable | src/lib/decision-tree.ts:103-133 | an exhausted search with no explored goal means that no legal walk from the start reaches `SOLVED_STATE` |
| DecisionTree.FirstMinimum | src/lib/decision-tree.ts:51-59 | the scan's index holds a least total cost, and every earlier leaf is strictly dearer |
| DecisionTree.GetAdjacentElements | src/lib/decision-tree.ts:67-81 | when a blank is found, the k-th element is the tile at the k-th valid move of `getValidMoves`; when not, the array's cells 2 and 0 |
| DecisionTree.AdjacentElementsAreNeighbours | src/lib/decision-tree.ts:67-81 | on a board: 2 to 4 distinct non-blank tiles, each in a cell adjacent to the blank |
| DecisionTree.ChildLeaves | src/lib/decision-tree.ts:83-101 | one leaf per successor, in order, each on that successor one level deeper and linked to the parent |
| DecisionTree.SlideIsSuccessor | src/lib/decision-tree.ts:89-94 | writing the k-th adjacent tile into the blank and 0 into that tile's cell gives the k-th successor |
| DecisionTree.SlideChild | src/lib/decision-tree.ts:89-96 | writing the k-th adjacent tile into the blank and 0 into that tile's cell gives the k-th child of `ChildLeaves`: the k-th successor one level deeper, linked to the parent |
| DecisionTree.DecisionTree.constructor | src/lib/decision-tree.ts:30-38 | the root is a depth-0 leaf with no parent and is the only frontier leaf; `explored` is empty and the counters are 0; on a board the search invariant holds |
| DecisionTree.DecisionTree.FindBestLeaf | src/lib/decision-tree.ts:50-65 | returns the first leaf of least total cost, removes it from the frontier with the rest kept in order, and appends it to `explored` |
| DecisionTree.DecisionTree.GenerateNextDepthStates | src/lib/decision-tree.ts:83-101 | the children are exactly `ChildLeaves`: one per valid move, in order, the successor board at depth + 1, linked to the parent; `createdLeaves` grows by the number of children |
| DecisionTree.DecisionTree.AdmitChild | src/lib/decision-tree.ts:116-130 | the child is pushed exactly when neither list holds its state; `moves` and `maxCost` rise to its depth and total cost; the tree invariant is kept |
| DecisionTree.DecisionTree.AdmitNext | src/lib/decision-tree.ts:115-131 | the k-th child is pushed exactly when neither list holds its state, and `moves` and `maxCost` rise to its depth and total cost; afterwards the first k + 1 children are held, nothing held before is lost, and the tree invariant is kept |
| DecisionTree.DecisionTree.AdmitChildren | src/lib/decision-tree.ts:115-131 | the new frontier is the old one followed, in order, by each child that neither list held when it was offered; `moves` and `maxCost` are the maxima of their old values and every child's depth and total cost; every child's state is held, nothing held before is lost, and the tree invariant is kept |
| DecisionTree.DecisionTree.PathTo | src/lib/decision-tree.ts:107-110 | the reconstructed path is a legal walk from the root board to the leaf's board, of length depth + 1 |
| DecisionTree.DecisionTree.Expand | src/lib/decision-tree.ts:113-131 | a round that does not reach the goal leaves the frontier and counters as `AdmitChildren` states for the leaf's children, adds one to `createdLeaves` per valid move, keeps the tree invariant, and ends with every explored leaf expanded |
| DecisionTree.DecisionTree.AStarSearch | src/lib/decision-tree.ts:103-133 | terminates; a returned path is a legal walk from the root board to `SOLVED_STATE`, of length depth + 1 of the goal leaf; None only with an empty frontier, when no walk from the root reaches the goal; the counters never decrease, and the old `explored` list is a prefix of the new one |
| Scramble.ScoreAfter | src/lib/game-helper.ts:63-82 | `difficultyScore` is 0 before the first move and the Manhattan distance of the current board after it |
| Scramble.StepKeepsSolvable | src/lib/game-helper.ts:72-79 | one scramble move keeps the solvability verdict |
| Scramble.WalkKeepsSolvable | src/lib/game-helper.ts:61-84 | every board of a walk has the verdict of the first board |
| Scramble.WalkGrows | src/lib/game-helper.ts:72-84 | a walk that has not stopped, extended by one legal move, still starts at the same board; the scores seen so far are unchanged and the new score is the Manhattan distance of the new board |
| Scramble.ScrambleStep | src/lib/game-helper.ts:72-79 | a randomly chosen valid move swapped into the blank is one legal move |
| Scramble.AsyncScramblePuzzle | src/lib/game-helper.ts:61-84 | the boards form a legal walk from the input, one move per callback; no earlier callback met the stop test; a resolved board is the last board and meets the stop test (at least `moves` moves made, score at least `minDifficulty`), so it is a board at Manhattan distance ≥ `minDifficulty`, as solvable as the input |
| Scramble.ResolvedScramble | src/lib/game-helper.ts:66-84 | a resolved board is a board reached from the input by a walk of at least `moves` legal moves, at Manhattan distance ≥ `minDifficulty`, as solvable as the input, so solvable when the input is `SOLVED_STATE` |
| GifHelper.MessagesAndGifs | src/lib/gif-helper.ts:11-82 | a table exists exactly for "easy", "medium" and "hard" |
| GifHelper.TablesEndUnbounded | src/lib/gif-helper.ts:11-78 | each difficulty has four tiers whose limits strictly rise: three numbers, then `Infinity` |
| GifHelper.FindFrom | src/lib/gif-helper.ts:87 | the first occurrence of the pattern, with no earlier one; none if the pattern does not occur |
| GifHelper.ReplaceFirst | src/lib/gif-helper.ts:87 | `replace` leaves a string without the pattern unchanged; with one, the length changes by the replacement's length less the pattern's |
| GifHelper.ReplaceFirstSpec | src/lib/gif-helper.ts:87 | `replace` with a string pattern rewrites only the first occurrence, keeping what comes before and after it |
| GifHelper.ReplaceAfter | src/lib/gif-helper.ts:87 | a pattern preceded by text without its first character is the occurrence that gets replaced |
| GifHelper.ReplaceAbsent | src/lib/gif-helper.ts:87 | a message without `{` is left unchanged |
| GifHelper.FirstWithin | src/lib/gif-helper.ts:84-91 | the first tier whose limit is ≥ the move count, with every earlier tier below it; none if no tier qualifies |
| GifHelper.FeedbackFromTiers | src/lib/gif-helper.ts:84-94 | when no tier fits, the default feedback; when some tier fits, the picture of one of the tiers |
| GifHelper.FeedbackIsFirstMatch | src/lib/gif-helper.ts:80-94 | for a known difficulty a tier always matches (the default at the end cannot be reached); the result is that tier's gif and its message with `{moves}` filled in |
| GifHelper.GetPuzzleFeedback | src/lib/gif-helper.ts:80-94 | an unknown difficulty gives the default message and `/assets/clapping.gif`; a known one always gives the picture of one of its own tiers |
| GifHelper.EasyRecord | src/lib/gif-helper.ts:13-17 | easy with at most 10 moves gives `/assets/outstanding.webp` and the fixed message |
| GifHelper.HardMaster | src/lib/gif-helper.ts:62-66 | hard with 26 to 30 moves gives `/assets/youwon.webp` and "You won in N moves! You're a puzzle master!" |
| Utils.NatToString | src/lib/utils.ts:14-16 | at least one character, all digits, and no leading zero |
| Utils.NatToStringRoundTrip | src/lib/utils.ts:14-16 | reading the digits back gives the number |
| Utils.NatToStringInjective | src/lib/utils.ts:14-16 | different numbers render differently |
| Utils.IntToString | src/lib/gif-helper.ts:87 | `String(n)`: a leading '-' exactly for a negative number, and digits otherwise |
| Utils.IntToStringRoundTrip | src/lib/gif-helper.ts:87 | parsing `String(n)` gives back n; the parser also reads leading zeros, so it is an inverse on the rendered strings only |
| Utils.Hours | src/lib/utils.ts:9 | the whole hours, rounded down: h·3600 ≤ t < h·3600 + 3600 |
| Utils.Minutes | src/lib/utils.ts:10 | the remainder modulo an hour in whole minutes, rounded down; in [0, 60) for t ≥ 0 and in [-60, 0] for t < 0 |
| Utils.Seconds | src/lib/utils.ts:11 | the sign-keeping remainder modulo a minute: in (-60, 60), with the sign of t, and t minus it a multiple of 60 |
| Utils.TimeParts | src/lib/utils.ts:9-11 | for t ≥ 0: h·3600 + m·60 + s == t with h ≥ 0 |
| Utils.FormatTime | src/lib/utils.ts:8-16 | the text has at least two characters and ends with "s" |
| Utils.FormatTimeSegments | src/lib/utils.ts:14-16 | "h" appears if and only if hours > 0, "m" if and only if minutes > 0, and the text always ends with the seconds followed by "s" |
| Utils.HourSegmentText | src/lib/utils.ts:14 | with hours > 0 the text opens with `String(hours)`, "h" and a space |
| Utils.MinuteSegmentText | src/lib/utils.ts:15 | with minutes > 0, `String(minutes)`, "m" and a space come right after the hour segment, or open the text when the hours are not positive |
| Utils.NegativeTime | src/lib/utils.ts:8-16 | a negative time shows only its sign-keeping remainder of seconds, which lies in (-60, 0] |
| Utils.FormatTimeExamples | src/lib/utils.ts:8-16 | 0 → "0s", 59 → "59s", 60 → "1m 0s", -61 → "-1s" |
| Utils.FormatTimeHourExamples | src/lib/utils.ts:8-16 | 3600 → "1h 0s", 3661 → "1h 1m 1s" |

## Left out

**Parts of the source not modelled**
- `moveTile` (src/lib/solver.ts:69-79) is not modelled: it only clicks a DOM button. `findMovedElement`, which it calls, is modelled.
- `cn` and `waitFor` (src/lib/utils.ts) are not modelled: they wrap a class-name library and a timer.
- `DecisionTree.destroy` is not modelled: it only resets the fields to their initial values.
- `asyncScramblePuzzle`: the `setInterval` timer, its `delay` and the Promise are not modelled. The number of callbacks is a parameter, `ticks`, so the model does not claim the random walk ever stops.
- `Math.random` is replaced by a nondeterministic choice among the valid moves. Uniformity is not modelled.

**Numbers and strings**
- Numbers are mathematical integers. Floating point, NaN, non-integer times, and the exponent notation `String` uses from 1e21 upwards are not modelled.
- Characters are compared as code points; strings carry no encoding.
- `getPuzzleFeedback`: a difficulty that names an `Object.prototype` property (such as "toString") is treated as unknown. In JavaScript such a key would find a function and make the `for…of` throw.

**Search and solver behaviour**
- A leaf's parent is the index of the parent in `explored`, not an object reference. Since `explored` only grows at its end, the index always denotes the same leaf.
- `isSolved`'s comparison of the two `JSON.stringify` texts is modelled as sequence equality. The texts of two integer arrays are equal exactly when the arrays are.
- `toString()` equality of two boards is modelled as sequence equality. These are the same for integer arrays, since the decimal form of an integer has no comma.
- DecisionTree.DecisionTree.AStarSearch: completeness for solvable boards is not proved. The search terminates, and `None` comes only when no legal walk from the root reaches the goal, so a path is returned whenever such a walk exists. That every board of even inversion parity has such a walk is not proved.
- The search is not claimed to find a shortest path. A state reached again at a smaller depth is discarded, not updated.
- Termination of `aStarSearch` is measured against the finite set of all 9-cell arrays over 0..8 (9^9 elements), not the 9!/2 boards reachable from the root.
- The tree invariant does not record that each leaf's cost is its heuristic. `NewLeaf`'s contract states this when a leaf is made.
- `GoalIndex` computes `SOLVED_STATE.indexOf(tile)` in closed form. `GoalIndexIsIndexOf` proves that the two agree.

**Preconditions the source does not have**
- DecisionTree.DecisionTree.AStarSearch: requires that the root holds a board. Its invariant speaks of boards only, so a search started on an array that is not a permutation of 0..8 is not covered. The constructor establishes the precondition for every board, solvable or not.
- DecisionTree.GetAdjacentElements: requires a 9-cell array. On other lengths, JavaScript would read `undefined` cells.
- DecisionTree.DecisionTree.GenerateNextDepthStates: requires a board, because the children equal the successors of the leaf only when it has exactly one blank.
- Scramble.AsyncScramblePuzzle: requires the input to be a board. The game only ever passes `SOLVED_STATE`.
