/**
 * The queries `PuzzleSolver` asks of a state (src/puzzle_solver.rs:102-271), as functions
 * of the configuration and the pull levels so that the search specification can ask them
 * of states other than the live one.
 */
module SolverPhysics {
  import opened CellPositions
  import opened PuzzleConfigurations
  import opened PlayerMovements

  /** The solver's pull levels fit the configuration: one level per piece. */
  predicate LevelsFit(c: PuzzleConfiguration, levels: seq<int>)
  {
    ValidConfiguration(c) && |levels| == |c.pieces|
  }

  /** Every piece is pulled out between 0 and 3 levels. */
  predicate LevelsInRange(levels: seq<int>)
  {
    forall i :: 0 <= i < |levels| ==> 0 <= levels[i] <= 3
  }

  /** Lines 137-145: the piece shown at `pos`, or -1 outside the puzzle or at a hole. */
  function PieceAt(c: PuzzleConfiguration, pos: CellPosition): (r: int)
    requires ValidConfiguration(c)
    ensures Hole <= r < |c.pieces|
    ensures r != Hole ==> InMatrix(c, pos)
  {
    if pos.x < 0 || pos.x >= c.width || pos.y < 0 || pos.y >= c.height then Hole
    else c.cellToPieceMatrix[pos.y][pos.x]
  }

  /** In an agreeing matrix, `PieceAt` names exactly the piece that holds `pos`. */
  lemma PieceAtIsHolder(c: PuzzleConfiguration, pos: CellPosition, i: int)
    requires ValidConfiguration(c) && MatrixAgreesWithPieces(c)
    requires 0 <= i < |c.pieces|
    ensures PieceAt(c, pos) == i <==> pos in c.pieces[i].cells
  {
    if pos in c.pieces[i].cells {
      var k :| 0 <= k < |c.pieces[i].cells| && c.pieces[i].cells[k] == pos;
      assert c.cellToPieceMatrix[pos.y][pos.x] == i;
    }
  }

  /**
   * Lines 148-167: 4 on the ground row just below the puzzle, 0 outside the puzzle or at
   * a hole, and otherwise the pull level of the piece at `pos`.
   */
  function PullLevelAt(c: PuzzleConfiguration, levels: seq<int>, pos: CellPosition): (r: int)
    requires LevelsFit(c, levels)
    ensures LevelsInRange(levels) ==> 0 <= r <= 4
  {
    if pos.y == c.height && pos.x >= 0 && pos.x < c.width then 4
    else if pos.x < 0 || pos.x >= c.width || pos.y < 0 || pos.y >= c.height then 0
    else
      var piece := c.cellToPieceMatrix[pos.y][pos.x];
      if piece == Hole then 0 else levels[piece]
  }

  /** A cell of the puzzle shows the pull level of the piece holding it and 0 when none does. */
  lemma PullLevelIsHoldersLevel(c: PuzzleConfiguration, levels: seq<int>, pos: CellPosition)
    requires LevelsFit(c, levels)
    requires InMatrix(c, pos)
    ensures PieceAt(c, pos) == Hole ==> PullLevelAt(c, levels, pos) == 0
    ensures PieceAt(c, pos) != Hole ==> PullLevelAt(c, levels, pos) == levels[PieceAt(c, pos)]
  {
  }

  /** The cells a player can ever stand on: inside the puzzle's columns, from one row above it to its bottom row. */
  predicate InFootholdBox(c: PuzzleConfiguration, pos: CellPosition)
  {
    0 <= pos.x < c.width && -1 <= pos.y < c.height
  }

  /**
   * Lines 126-134: the player can stand at `pos` on the bottom row of the puzzle, or on
   * top of a cell that sticks out further than `pos` itself.
   */
  function HasFoothold(c: PuzzleConfiguration, levels: seq<int>, pos: CellPosition): (r: bool)
    requires LevelsFit(c, levels)
    ensures r ==> InFootholdBox(c, pos)
  {
    if pos.y == c.height - 1 && pos.x >= 0 && pos.x < c.width then true
    else PullLevelAt(c, levels, pos) < PullLevelAt(c, levels, pos.Add(0, 1))
  }

  /** With every piece pushed in (the state `new` creates), the only footholds are the bottom row. */
  lemma InitialFootholdsAreGround(c: PuzzleConfiguration, levels: seq<int>, pos: CellPosition)
    requires LevelsFit(c, levels)
    requires forall i :: 0 <= i < |levels| ==> levels[i] == 0
    ensures HasFoothold(c, levels, pos) <==> pos.y == c.height - 1 && 0 <= pos.x < c.width
  {
    var below := pos.Add(0, 1);
    if !(pos.y == c.height - 1 && 0 <= pos.x < c.width) {
      assert PullLevelAt(c, levels, below) == 0;
    }
  }

  /** A foothold off the bottom row stands on a cell pulled out at least one level. */
  lemma FootholdStandsOnPulledCell(c: PuzzleConfiguration, levels: seq<int>, pos: CellPosition)
    requires LevelsFit(c, levels) && LevelsInRange(levels)
    requires HasFoothold(c, levels, pos) && pos.y != c.height - 1
    ensures PieceAt(c, pos.Add(0, 1)) != Hole
    ensures levels[PieceAt(c, pos.Add(0, 1))] >= 1
  {
  }

  function Abs(n: int): (r: int)
    ensures r >= 0 && (r == n || r == -n)
  {
    if n < 0 then -n else n
  }

  /** Lines 263-271: minus the Manhattan distance from the move's standing cell to the goal. */
  function Rate(c: PuzzleConfiguration, m: PlayerMovement): (r: int)
    ensures r <= 0
    ensures r == 0 <==> m.playerPosition == c.goal
  {
    - Abs(c.goal.x - m.playerPosition.x) - Abs(c.goal.y - m.playerPosition.y)
  }

  /** A move standing nearer the goal, in Manhattan distance, rates higher. */
  lemma RateOrdersByDistance(c: PuzzleConfiguration, m: PlayerMovement, n: PlayerMovement)
    ensures Rate(c, m) >= Rate(c, n) <==>
      Abs(c.goal.x - m.playerPosition.x) + Abs(c.goal.y - m.playerPosition.y) <=
      Abs(c.goal.x - n.playerPosition.x) + Abs(c.goal.y - n.playerPosition.y)
  {
  }

  /** The level change of lines 109-110: one out when pulling, one in otherwise. */
  function PullDelta(pullOut: bool): int
  {
    if pullOut then 1 else -1
  }

  /** The pull levels after `apply_move` (lines 102-113). */
  function LevelsAfterMove(levels: seq<int>, pieceIndex: int, pullOut: bool): (r: seq<int>)
    requires 0 <= pieceIndex < |levels|
    ensures |r| == |levels|
    ensures forall i :: 0 <= i < |levels| && i != pieceIndex ==> r[i] == levels[i]
  {
    levels[pieceIndex := levels[pieceIndex] + PullDelta(pullOut)]
  }

  /** The pull levels after `undo_move` (lines 116-123). */
  function LevelsAfterUndo(levels: seq<int>, pieceIndex: int, pullOut: bool): (r: seq<int>)
    requires 0 <= pieceIndex < |levels|
    ensures |r| == |levels|
    ensures forall i :: 0 <= i < |levels| && i != pieceIndex ==> r[i] == levels[i]
  {
    levels[pieceIndex := levels[pieceIndex] - PullDelta(pullOut)]
  }

  /** Undoing a move restores the pull levels it changed. */
  lemma UndoRestoresLevels(levels: seq<int>, pieceIndex: int, pullOut: bool)
    requires 0 <= pieceIndex < |levels|
    ensures LevelsAfterUndo(LevelsAfterMove(levels, pieceIndex, pullOut), pieceIndex, pullOut) == levels
  {
  }
}
