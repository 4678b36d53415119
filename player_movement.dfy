/** One candidate action of the search (src/player_movement.rs). */
module PlayerMovements {
  import opened CellPositions

  /**
   * Stand at `playerPosition` and pull piece `pieceIndex` one level out (`pullOut`) or
   * push it one level in; `score` is the search heuristic, an integer here.
   */
  datatype PlayerMovement = PlayerMovement(playerPosition: CellPosition, pieceIndex: int, pullOut: bool, score: int)

  /** What `apply_move` records so that `undo_move` can revert it (src/puzzle_solver.rs:8-13). */
  datatype MoveUndo = MoveUndo(playerPosition: CellPosition, pieceIndex: int, pullOut: bool)
}
