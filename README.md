# pushmo-solver in Dafny

A model of the core of pushmo-solver, a solver for "Pushmo" puzzles. A puzzle is a wall of
coloured blocks. Blocks of one colour that touch form a piece. The player stands on the
ground row below the wall, or on top of a block. The player can pull a piece out of the
wall by up to three levels, then climb on what sticks out. The goal is to reach a marked cell.

The model has two halves.

- **Parsing** (`PuzzleConfiguration::new_from_string`).
  - The text is read character by character: letters are blocks, `.` is a hole, `*` marks
    the goal, and a line break starts a new row. `PuzzleScan` states this loop as a left fold
    and `ConfigurationParser.ScanText` is the loop.
  - A row-major scan of flood fills then groups the blocks into pieces (`PieceExtraction`).
  - Finally the cell-to-piece matrix is built (`ConfigurationParser`).
- **Solving** (`PuzzleSolver`).
  - `PuzzleSolvers.PuzzleSolver` is a class with the solver's mutable fields: player
    position, pull levels, maximum depth and the count of moves tried.
  - Its methods follow the Rust methods loop for loop. Each one is proved against a
    specification function:
    - `SolverPhysics`: pull levels, footholds and ratings;
    - `Reachability`: the cells a player can walk and climb to;
    - `MoveGeneration`: the pulls available, their rating and their order;
    - `SearchSpec`: the depth-bounded, best-first depth-first search.
  - Lemmas then prove what those functions promise:
    - the reachable list is the least step-closed set, without duplicates;
    - the sort is a stable permutation by descending score;
    - every solution found replays legally from the start state and reaches the goal;
    - the empty solution comes back exactly when the goal is already reachable;
    - every state the search applies a move in keeps the pull levels within 0..3.

Integers are unbounded. For the pull levels this is proved harmless: the search keeps every
level within 0..3 in every state it visits, because `Valid()` includes that range and each
tried move is shown to keep it. The `i32` move counter `solve_movement_tests` is a different
case. It grows by one per tried move and can pass 2^31 on a large search, where Rust would
panic or wrap; the model does not capture that (see "## Left out"). Scores are integers too:
the source stores them in `f32`, but they always hold whole numbers.

## Model

| member | source | states |
|---|---|---|
| CellPositions.CellPosition.Add | src/cell_position.rs:14-17 | the translated position has both coordinates shifted by the given offsets |
| CellPositions.AddCompose | src/cell_position.rs:14-17 | two translations compose into one by adding offsets |
| CellPositions.EqualIffSameCoordinates | src/cell_position.rs:4-9 | derived equality of positions is equality of both coordinates, the test lines 211 and 295 of the solver write out |
| ConfigurationParser.ScanText | src/puzzle_configuration.rs:38-69 | the character loop ends in exactly the state of the fold `Scan` over the text |
| PuzzleScan.HeightCountsNewlines | src/puzzle_configuration.rs:42-67 | the height is one more than the number of line breaks in the text |
| PuzzleScan.WidthIsLongestTerminatedRow | src/puzzle_configuration.rs:61-64 | the width is the length of the longest row ended by a line break; the unterminated last row does not count, and the current column is its length |
| PuzzleScan.CodesInRange | src/puzzle_configuration.rs:47-56 | every stored cell is a letter code 0..25 or the hole -1 |
| PuzzleScan.InsignificantCharactersIgnored | src/puzzle_configuration.rs:45-69 | characters other than letters, `.`, `*` and line breaks leave the scan unchanged |
| PuzzleScan.NoMarkerNoGoal | src/puzzle_configuration.rs:34 | without a `*` the goal stays at (-1, -1) |
| PuzzleScan.LastMarkerSetsGoal | src/puzzle_configuration.rs:57-60 | the last `*` decides the goal: one column left of the cells scanned so far in its row, one row above that row |
| PuzzleScan.ExampleScan | src/puzzle_configuration.rs:38-69 | the text "AA*\nBB" scans to rows [[0,0],[1,1]], width 2, height 2 and goal (1, -1) |
| ConfigurationParser.TrimRangeIsEmpty | src/puzzle_configuration.rs:73-83 | the bottom-trimming range `(len - 1)..0` is always empty, so that loop changes nothing |
| PieceExtraction.FloodFill | src/puzzle_configuration.rs:91-122 | the flood fill claims a connected same-letter piece starting at its cell, blanks it in the scratch copy, and keeps every piece found so far maximal and owning exactly the blanked cells |
| PieceExtraction.ExtractRow | src/puzzle_configuration.rs:87-123 | after one row of the scan every cell up to that row is claimed; the pieces stay well formed, maximal and in scan order |
| PieceExtraction.FindPieces | src/puzzle_configuration.rs:86-124 | the pieces partition the lettered cells; each is a connected, maximal same-letter group with no duplicates whose first cell is its earliest; pieces are numbered in scan order |
| PieceExtraction.BlankShrinksLettered | src/puzzle_configuration.rs:107-110 | blanking a claimed cell strictly shrinks the set of unclaimed lettered cells, so the flood fill terminates |
| PieceExtraction.TrackedDisjoint | src/puzzle_configuration.rs:107-110 | no cell belongs to two pieces |
| PieceExtraction.TrackedMaximal | src/puzzle_configuration.rs:107-114 | a same-letter neighbour of a piece's cell belongs to the same piece |
| ConfigurationParser.BlankMatrix | src/puzzle_configuration.rs:127-136 | the matrix has `height` rows of `width` entries, all -1 |
| ConfigurationParser.FillMatrix | src/puzzle_configuration.rs:139-146 | afterwards entry (x, y) is i exactly when piece i holds (x, y), and -1 when no piece does |
| ConfigurationParser.LetteredCellsFit | src/puzzle_configuration.rs:144 | when no lettered cell of the last row lies at or beyond column `width`, every lettered cell lies inside the `width` by `height` matrix |
| ConfigurationParser.NewFromString | src/puzzle_configuration.rs:25-150 | parsing always returns a configuration with the scan's width, height and goal, whose pieces are the pieces of the scanned grid and whose matrix agrees with them |
| PuzzleConfigurations.AgreeingPiecesAreDisjoint | src/puzzle_configuration.rs:139-146 | in a matrix that agrees with the pieces no cell belongs to two pieces |
| PuzzleSolvers.PuzzleSolver.constructor | src/puzzle_solver.rs:78-99 | the solver starts at (0, height - 1), with one pull level 0 per piece, maximum depth 15 and no moves tried |
| PuzzleSolvers.PuzzleSolver.ApplyMove | src/puzzle_solver.rs:102-113 | the player moves to the move's cell, only the moved piece's level changes (by +1 when pulling out, -1 otherwise), and the undo record holds the move's cell, piece and direction |
| PuzzleSolvers.PuzzleSolver.UndoMove | src/puzzle_solver.rs:116-123 | the player goes to the undo record's cell and the piece's level change is reverted |
| SolverPhysics.UndoRestoresLevels | src/puzzle_solver.rs:102-123 | undoing a move restores the pull levels exactly |
| SolverPhysics.PieceAt | src/puzzle_solver.rs:137-145 | the result is a piece index or -1, and -1 outside the puzzle |
| SolverPhysics.PieceAtIsHolder | src/puzzle_solver.rs:137-145 | in a parsed configuration, the piece at a cell is i exactly when piece i holds the cell |
| SolverPhysics.PullLevelAt | src/puzzle_solver.rs:148-167 | with levels 0..3 the level seen at any cell is 0..4 |
| SolverPhysics.PullLevelIsHoldersLevel | src/puzzle_solver.rs:154-166 | inside the puzzle a hole shows level 0 and any other cell shows its piece's pull level |
| SolverPhysics.HasFoothold | src/puzzle_solver.rs:126-134 | a foothold is always within the puzzle's columns, between one row above the puzzle and its bottom row |
| SolverPhysics.InitialFootholdsAreGround | src/puzzle_solver.rs:126-134 | with every piece pushed in, the footholds are exactly the bottom row |
| SolverPhysics.FootholdStandsOnPulledCell | src/puzzle_solver.rs:126-134 | a foothold off the bottom row stands on a piece pulled out at least one level |
| SolverPhysics.Rate | src/puzzle_solver.rs:263-271 | the rating is never positive and is 0 exactly when the move stands on the goal |
| SolverPhysics.RateOrdersByDistance | src/puzzle_solver.rs:263-271 | a move rates at least as high as another exactly when it stands no farther from the goal in Manhattan distance |
| PuzzleSolvers.PuzzleSolver.GetReachableAt | src/puzzle_solver.rs:170-191 | the method appends to `outvec` exactly the one-step cells that offer a foothold, in the order left, right, up, up-left, up-right |
| Reachability.ReachableAtIsSteps | src/puzzle_solver.rs:170-191 | a cell is listed exactly when it is one of the five step targets and offers a foothold |
| Reachability.StepIsOneStep | src/puzzle_solver.rs:170-191 | a step moves at most one column, never descends, and lands on a foothold inside the foothold box |
| Reachability.FootholdsFilters | src/puzzle_solver.rs:170-191 | the foothold filter keeps exactly the cells that offer a foothold |
| PuzzleSolvers.IsListed | src/puzzle_solver.rs:208-213 | the duplicate test is true exactly when the cell is already in the list |
| Reachability.AppendNewMembers | src/puzzle_solver.rs:206-217 | after appending, the list holds exactly the cells of the old list and of the new steps |
| Reachability.AppendNewKeepsDistinct | src/puzzle_solver.rs:206-217 | appending only unlisted cells keeps the list free of duplicates |
| Reachability.AppendNewExtends | src/puzzle_solver.rs:206-217 | appending keeps the old list as a prefix |
| Reachability.AppendNewAddsOnlyFresh | src/puzzle_solver.rs:206-217 | every appended cell was not listed before |
| Reachability.AppendStepsProgress | src/puzzle_solver.rs:201-221 | expanding one entry either adds nothing or lists a new cell of the finite foothold box, so the worklist loop terminates |
| PuzzleSolvers.PuzzleSolver.GetReachableRecursive | src/puzzle_solver.rs:194-224 | the worklist loop returns exactly `ReachableFrom`, whose properties the lemmas below state |
| Reachability.ReachableFrom | src/puzzle_solver.rs:194-224 | the list starts with the start cell and every later entry offers a foothold |
| Reachability.ReachableIsClosed | src/puzzle_solver.rs:194-224 | every step from a listed cell leads to a listed cell |
| Reachability.ReachableIsLeast | src/puzzle_solver.rs:194-224 | every set that holds the start and is closed under steps contains every listed cell |
| Reachability.ReachableIsDistinct | src/puzzle_solver.rs:206-217 | no cell is listed twice |
| Reachability.ReachableIsDiscovered | src/puzzle_solver.rs:201-221 | every listed cell after the start is one step from a cell listed before it |
| Reachability.ReachableNeverDescends | src/puzzle_solver.rs:170-224 | no reachable cell lies below the start |
| PuzzleSolvers.PuzzleSolver.GetPotentialMovesAt | src/puzzle_solver.rs:227-260 | the method appends to `outvec` exactly the pulls of `MovesAt` |
| MoveGeneration.MovesAt | src/puzzle_solver.rs:227-260 | at most three moves, each standing at the cell and pulling either the piece in front, when it sticks out at least two levels less than the cell below, or a side piece pulled out one or two levels, when the cell below sticks out at least two levels more |
| MoveGeneration.MovesAtIsComplete | src/puzzle_solver.rs:227-260 | a move is listed exactly when it is a pull open at the cell: the piece in front under the front condition or a side piece under the side condition, standing at the cell, pulling out, score 0 |
| MoveGeneration.MovesKeepLevelsInRange | src/puzzle_solver.rs:235-257 | a generated pull finds its piece at level 2 or lower, so pulling it keeps every level within 0..3 |
| PuzzleSolvers.PuzzleSolver.GatherPotentialMoves | src/puzzle_solver.rs:293-299 | the goal test fires exactly when the goal is among the reachable cells; otherwise the moves are those of every reachable cell, cell by cell |
| MoveGeneration.GatherMoves | src/puzzle_solver.rs:293-299 | every gathered move stands at a reachable cell and is one of that cell's pulls; at most three per cell |
| MoveGeneration.GatherMovesComplete | src/puzzle_solver.rs:293-299 | every pull of every cell of the reachable list is gathered, so with `GatherMoves` the gathered moves are exactly the pulls of the reachable cells |
| PuzzleSolvers.PuzzleSolver.RateMoves | src/puzzle_solver.rs:302-303 | every move gets its rating as its score |
| MoveGeneration.SortIsSorted | src/puzzle_solver.rs:305 | the sort orders moves by descending score |
| MoveGeneration.SortIsPermutation | src/puzzle_solver.rs:305 | the sort keeps every move, as often as it occurs |
| MoveGeneration.SortIsStable | src/puzzle_solver.rs:305 | the moves of each score keep their gathered order |
| MoveGeneration.StableSortIsUnique | src/puzzle_solver.rs:305 | two descending orders that agree on each score's sequence of moves are equal, so any stable descending sort gives the same result |
| MoveGeneration.InsertIsPermutation | src/puzzle_solver.rs:305 | inserting adds the move and keeps every other one |
| MoveGeneration.InsertKeepsSorted | src/puzzle_solver.rs:305 | inserting into a descending sequence keeps it descending |
| MoveGeneration.InsertIsStable | src/puzzle_solver.rs:305 | inserting puts the move in front of the moves of its own score and leaves other scores' moves alone |
| MoveGeneration.WithScoreMembers | src/puzzle_solver.rs:305 | the moves of one score are exactly the members with that score |
| SearchSpec.Candidates | src/puzzle_solver.rs:287-305 | the candidates are sorted by descending score, and each pulls out a piece of the puzzle |
| SearchSpec.CandidatesAreLegal | src/puzzle_solver.rs:287-305 | every candidate is a pull open at a cell reachable from the player, scored by its rating |
| SearchSpec.CandidatesAreComplete | src/puzzle_solver.rs:287-305 | every pull open at a cell reachable from the player, scored by its rating, is a candidate, so with `CandidatesAreLegal` the candidates are exactly those moves |
| SearchSpec.ScoredMoveIsGathered | src/puzzle_solver.rs:293-303 | a rated gathered move stands at a reachable cell, is one of its pulls, and carries its rating |
| SearchSpec.Search | src/puzzle_solver.rs:281-325 | a solution exists only below the maximum depth and has at most `maxDepth - 1 - depth` moves |
| SearchSpec.SearchEmptyIffGoalReachable | src/puzzle_solver.rs:283-296 | the search returns the empty solution exactly when it is below the maximum depth and the goal is reachable |
| SearchSpec.TryFrom | src/puzzle_solver.rs:308-324 | a solution found from candidate i has one to `maxDepth - 1 - depth` moves; a failed search tried every remaining candidate |
| SearchSpec.SearchFailure | src/puzzle_solver.rs:308-324 | a search that finds nothing below the maximum depth has counted at least one tried move per candidate, and leaves the player where the last candidate stood (each undo puts the player on the undone move's cell); past the maximum depth, or with no candidate, the player stays put |
| SearchSpec.TryFromFailsAtLast | src/puzzle_solver.rs:309-324 | a failed run over the remaining candidates leaves the player where the last candidate stood, or where it was when none remained |
| SearchSpec.CandidatesKeepLevelsInRange | src/puzzle_solver.rs:309-313 | from levels within 0..3, every candidate pulls a piece out and applying it keeps every level within 0..3 |
| SearchSpec.TryFromIsSound | src/puzzle_solver.rs:308-324 | a solution found from candidate i replays legally from the start state |
| SearchSpec.SearchIsSound | src/puzzle_solver.rs:281-325 | every solution the search returns replays legally from the start state and ends with the goal reachable |
| SearchSpec.SolutionKeepsLevelsInRange | src/puzzle_solver.rs:308-324 | playing a solution only pulls pieces out, and never beyond level 3 |
| PuzzleSolvers.PuzzleSolver.SolveSearch | src/puzzle_solver.rs:281-325 | from a state with every level within 0..3, the method returns the solution of `Search` from its start state, leaves the player where `Search` says, adds its tried moves to the count and restores the pull levels; every state it applies a move in keeps the levels within 0..3 |
| PuzzleSolvers.PuzzleSolver.SearchDeeper | src/puzzle_solver.rs:308-324 | the candidate loop returns the result of `TryFrom` and restores the pull levels; it is only entered with moves that keep the levels within 0..3 |
| PuzzleSolvers.PuzzleSolver.TryCandidate | src/puzzle_solver.rs:311-315 | trying one move counts it plus the deeper search's tried moves, returns the deeper search's solution, restores the pull levels and leaves the player on the move's cell |
| PuzzleSolvers.PuzzleSolver.Solve | src/puzzle_solver.rs:274-278 | the solver returns the depth-0 search result; a solution has fewer moves than the maximum depth and replays legally to a state where the goal is reachable; the empty solution comes back exactly when the goal is reachable now; a failed search counts at least one tried move per candidate of the starting state |

## Left out

- `print` and the `Debug` implementations: output only.
- The `PartialEq`/`Eq` implementation for the solver, and the commented-out `Hash` and `already_checked_set`: the search never compares or hashes states.
- Scores are `f32` in the source, computed by casting each `i32` distance to `f32` and subtracting twice. The model uses integers. That is exact while each distance and their sum stay below 2^24; above that the source rounds, and may tie scores that the model keeps apart, so the stable sort could then order the candidates differently.
- Integer widths: `i8` levels, `i32` coordinates and the `i32` counter `solve_movement_tests` are unbounded here. Levels provably stay within 0..3 during the search. The counter can exceed 2^31 on a large search, where Rust panics (debug) or wraps (release); the model does not capture that overflow. Coordinates and distances past 2^24 also lose `f32` precision in the rating, as the line above says.
- PuzzleSolvers.PuzzleSolver.Solve: requires every pull level within 0..3 (`Valid()`), as `new` sets up and the search keeps. A solver whose levels were first pushed outside that range through `apply_move`/`undo_move` is not covered.
- SortByScore: the library `sort_by` is modelled as a stable insertion sort on sequences, not as the in-place sort. `StableSortIsUnique` shows that every stable sort by descending score gives the same sequence.
- PuzzleSolvers.PuzzleSolver.SolveSearch: `moves_temp`, the vector of per-depth move buffers shared by all depths, is a local sequence per call. Each depth in the source uses only its own slot.
- PuzzleSolvers.PuzzleSolver.GatherPotentialMoves: the source returns as soon as it meets the goal cell, after gathering the moves of the cells before it. The model does not give the moves in that case, because the search discards them.
- The `Vec` out-parameters `outvec` of `get_reachable_at` and `get_potential_moves_at`: each is modelled as an input sequence and the returned extended sequence.
- ConfigurationParser.NewFromString: requires `LastRowFits`. When a lettered cell of the unterminated last row lies at or beyond column `width`, line 144 indexes past the end of a matrix row and the Rust program panics. The model does not represent that panic.
- The bottom-trimming loop (lines 73-83) is not a method: its range is always empty (`TrimRangeIsEmpty`), so it is never run.
- `undo_move` puts the player on the undone move's own cell, not on the cell before the move. The model does the same; `SearchFailure` states this for a whole failed search.
