/**
 * The solver object of src/puzzle_solver.rs: the live state (where the player stands and how
 * far each piece is pulled out), the moves that change it, and the depth-first search. Each
 * method is proved against the functions of `SolverPhysics`, `Reachability`,
 * `MoveGeneration` and `SearchSpec`, evaluated on the state it starts from.
 */
module PuzzleSolvers {
  import opened Options
  import opened CellPositions
  import opened PuzzleConfigurations
  import opened PlayerMovements
  import opened SolverPhysics
  import opened Reachability
  import opened MoveGeneration
  import opened SearchSpec

  /** The maximum search depth `new` sets (line 90). */
  const DefaultMaxDepth := 15

  /** Appending five pieces one at a time appends their concatenation. */
  lemma ConcatAssociates<T>(o: seq<T>, a: seq<T>, b: seq<T>, c: seq<T>, d: seq<T>, e: seq<T>)
    ensures o + a + b + c + d + e == o + (a + (b + (c + (d + e))))
  {
  }

  /** Appending three pieces one at a time appends their concatenation. */
  lemma ConcatAssociates3<T>(o: seq<T>, a: seq<T>, b: seq<T>, c: seq<T>)
    ensures o + a + b + c == o + (a + b + c)
  {
  }

  /** Lines 208-213: scan `list` for a cell with the coordinates of `r`, stopping at the first. */
  method IsListed(list: seq<CellPosition>, r: CellPosition) returns (duplicate: bool)
    ensures duplicate <==> r in list
  {
    duplicate := false;
    var p := 0;
    while p < |list|
      invariant 0 <= p <= |list|
      invariant forall j :: 0 <= j < p ==> list[j] != r
    {
      if r.x == list[p].x && r.y == list[p].y {
        duplicate := true;
        break;
      }
      p := p + 1;
    }
  }

  class PuzzleSolver {
    const config: PuzzleConfiguration
    var playerPosition: CellPosition
    var piecePullLevels: seq<int>
    var solveMaxDepth: int
    var solveMovementTests: int

    /** The configuration is well formed and there is one pull level per piece. */
    predicate Fits()
      reads this
    {
      LevelsFit(config, piecePullLevels)
    }

    /** The state the search keeps: `Fits`, and every piece pulled out between 0 and 3 levels. */
    predicate Valid()
      reads this
    {
      Fits() && LevelsInRange(piecePullLevels)
    }

    /**
     * Lines 78-99: the player on the left end of the bottom row, every piece pushed in,
     * maximum depth 15 and no moves tried yet.
     */
    constructor (config: PuzzleConfiguration)
      requires ValidConfiguration(config)
      ensures Valid()
      ensures this.config == config
      ensures playerPosition == CellPosition(0, config.height - 1)
      ensures |piecePullLevels| == |config.pieces|
      ensures forall i :: 0 <= i < |piecePullLevels| ==> piecePullLevels[i] == 0
      ensures solveMaxDepth == DefaultMaxDepth && solveMovementTests == 0
    {
      var levels: seq<int> := [];
      var i := 0;
      while i < |config.pieces|
        invariant 0 <= i <= |config.pieces|
        invariant |levels| == i
        invariant forall j :: 0 <= j < i ==> levels[j] == 0
      {
        levels := levels + [0];
        i := i + 1;
      }
      this.config := config;
      playerPosition := CellPosition(0, config.height - 1);
      piecePullLevels := levels;
      solveMaxDepth := DefaultMaxDepth;
      solveMovementTests := 0;
    }

    /** Lines 102-113: move the player to where `m` stands and pull or push its piece one level. */
    method ApplyMove(m: PlayerMovement) returns (undo: MoveUndo)
      requires Fits() && 0 <= m.pieceIndex < |piecePullLevels|
      modifies this`playerPosition, this`piecePullLevels
      ensures Fits()
      ensures undo == MoveUndo(m.playerPosition, m.pieceIndex, m.pullOut)
      ensures playerPosition == m.playerPosition
      ensures piecePullLevels == LevelsAfterMove(old(piecePullLevels), m.pieceIndex, m.pullOut)
    {
      undo := MoveUndo(m.playerPosition, m.pieceIndex, m.pullOut);
      playerPosition := m.playerPosition;
      piecePullLevels := piecePullLevels[m.pieceIndex := piecePullLevels[m.pieceIndex] + (if m.pullOut then 1 else -1)];
    }

    /**
     * Lines 116-123: revert the level change of a move. The player goes back to where the
     * move stood, not to where it stood before the move.
     */
    method UndoMove(u: MoveUndo)
      requires Fits() && 0 <= u.pieceIndex < |piecePullLevels|
      modifies this`playerPosition, this`piecePullLevels
      ensures Fits()
      ensures playerPosition == u.playerPosition
      ensures piecePullLevels == LevelsAfterUndo(old(piecePullLevels), u.pieceIndex, u.pullOut)
    {
      playerPosition := u.playerPosition;
      piecePullLevels := piecePullLevels[u.pieceIndex := piecePullLevels[u.pieceIndex] - (if u.pullOut then 1 else -1)];
    }

    /** Lines 170-191: append to `outvec` the cells one step from `pos` that offer a foothold. */
    method GetReachableAt(outvec: seq<CellPosition>, pos: CellPosition) returns (r: seq<CellPosition>)
      requires Fits()
      ensures r == outvec + ReachableAt(config, piecePullLevels, pos)
    {
      r := outvec;
      ghost var r0 := r;
      if HasFoothold(config, piecePullLevels, pos.Add(-1, 0)) {
        r := r + [pos.Add(-1, 0)];
      }
      assert r == r0 + Keep(config, piecePullLevels, pos.Add(-1, 0));
      ghost var r1 := r;
      if HasFoothold(config, piecePullLevels, pos.Add(1, 0)) {
        r := r + [pos.Add(1, 0)];
      }
      assert r == r1 + Keep(config, piecePullLevels, pos.Add(1, 0));
      ghost var r2 := r;
      if HasFoothold(config, piecePullLevels, pos.Add(0, -1)) {
        r := r + [pos.Add(0, -1)];
      }
      assert r == r2 + Keep(config, piecePullLevels, pos.Add(0, -1));
      ghost var r3 := r;
      if HasFoothold(config, piecePullLevels, pos.Add(-1, -1)) {
        r := r + [pos.Add(-1, -1)];
      }
      assert r == r3 + Keep(config, piecePullLevels, pos.Add(-1, -1));
      ghost var r4 := r;
      if HasFoothold(config, piecePullLevels, pos.Add(1, -1)) {
        r := r + [pos.Add(1, -1)];
      }
      assert r == r4 + Keep(config, piecePullLevels, pos.Add(1, -1));
      ReachableAtUnrolled(config, piecePullLevels, pos);
      ConcatAssociates(outvec, Keep(config, piecePullLevels, pos.Add(-1, 0)), Keep(config, piecePullLevels, pos.Add(1, 0)),
        Keep(config, piecePullLevels, pos.Add(0, -1)), Keep(config, piecePullLevels, pos.Add(-1, -1)),
        Keep(config, piecePullLevels, pos.Add(1, -1)));
    }

    /**
     * Lines 194-224: a worklist search from `pos`. Each listed cell in turn has its steps
     * appended, skipping cells already listed, until every listed cell has been expanded.
     */
    method GetReachableRecursive(pos: CellPosition) returns (toCheck: seq<CellPosition>)
      requires Fits()
      ensures toCheck == ReachableFrom(config, piecePullLevels, pos)
    {
      toCheck := [pos];
      var reachableTemp: seq<CellPosition> := [];
      var checkIndex := 0;
      while checkIndex < |toCheck|
        invariant 0 <= checkIndex <= |toCheck|
        invariant TailFootholds(config, piecePullLevels, toCheck)
        invariant Explore(config, piecePullLevels, toCheck, checkIndex) == ReachableFrom(config, piecePullLevels, pos)
        invariant reachableTemp == []
        decreases FootholdBox(config) - Elems(toCheck), |toCheck| - checkIndex
      {
        reachableTemp := GetReachableAt(reachableTemp, toCheck[checkIndex]);
        ghost var list := toCheck;
        var k := 0;
        while k < |reachableTemp|
          invariant 0 <= k <= |reachableTemp|
          invariant AppendNew(toCheck, reachableTemp[k..]) == AppendNew(list, reachableTemp)
        {
          var r := reachableTemp[k];
          var duplicate := IsListed(toCheck, r);
          if !duplicate {
            toCheck := toCheck + [r];
          }
          assert reachableTemp[k..][0] == r && reachableTemp[k..][1..] == reachableTemp[k + 1..];
          k := k + 1;
        }
        assert reachableTemp[|reachableTemp|..] == [];
        AppendStepsProgress(config, piecePullLevels, list, checkIndex);
        reachableTemp := [];
        checkIndex := checkIndex + 1;
      }
    }

    /**
     * Lines 227-260: append to `outvec` the pulls open to a player at `pos`: the piece in
     * front, then the pieces to the right and to the left.
     */
    method GetPotentialMovesAt(outvec: seq<PlayerMovement>, pos: CellPosition) returns (r: seq<PlayerMovement>)
      requires Fits()
      ensures r == outvec + MovesAt(config, piecePullLevels, pos)
    {
      r := outvec;
      var pullLevelAtPos := PullLevelAt(config, piecePullLevels, pos);
      var pullLevelUnder := PullLevelAt(config, piecePullLevels, pos.Add(0, 1));
      if PieceAt(config, pos) != Hole {
        if pullLevelAtPos < pullLevelUnder - 1 {
          r := r + [PlayerMovement(pos, PieceAt(config, pos), true, 0)];
        }
      }
      ghost var afterFront := r;
      ghost var front := afterFront[|outvec|..];
      assert afterFront == outvec + front;
      if pullLevelUnder - pullLevelAtPos >= 2 {
        if PieceAt(config, pos.Add(1, 0)) != Hole {
          var pullLevelAtSide := PullLevelAt(config, piecePullLevels, pos.Add(1, 0));
          if pullLevelAtSide > 0 && pullLevelAtSide < 3 {
            r := r + [PlayerMovement(pos, PieceAt(config, pos.Add(1, 0)), true, 0)];
          }
        }
        ghost var afterRight := r;
        assert afterRight == afterFront + SidePull(config, piecePullLevels, pos, pos.Add(1, 0));
        if PieceAt(config, pos.Add(-1, 0)) != Hole {
          var pullLevelAtSide := PullLevelAt(config, piecePullLevels, pos.Add(-1, 0));
          if pullLevelAtSide > 0 && pullLevelAtSide < 3 {
            r := r + [PlayerMovement(pos, PieceAt(config, pos.Add(-1, 0)), true, 0)];
          }
        }
        assert r == afterRight + SidePull(config, piecePullLevels, pos, pos.Add(-1, 0));
        ConcatAssociates3(outvec, front, SidePull(config, piecePullLevels, pos, pos.Add(1, 0)),
          SidePull(config, piecePullLevels, pos, pos.Add(-1, 0)));
      }
    }

    /**
     * Lines 293-299: walk the reachable cells in order, stopping as soon as one is the goal
     * and otherwise gathering the pulls open at each.
     */
    method GatherPotentialMoves(reach: seq<CellPosition>) returns (goalReached: bool, moves: seq<PlayerMovement>)
      requires Fits()
      ensures goalReached <==> config.goal in reach
      ensures !goalReached ==> moves == GatherMoves(config, piecePullLevels, reach)
    {
      moves := [];
      var k := 0;
      while k < |reach|
        invariant 0 <= k <= |reach|
        invariant moves == GatherMoves(config, piecePullLevels, reach[..k])
        invariant config.goal !in reach[..k]
      {
        var r := reach[k];
        if r.x == config.goal.x && r.y == config.goal.y {
          EqualIffSameCoordinates(r, config.goal);
          return true, moves;
        }
        moves := GetPotentialMovesAt(moves, r);
        assert reach[..k + 1][..k] == reach[..k];
        k := k + 1;
      }
      assert reach[..k] == reach;
      goalReached := false;
    }

    /** Lines 302-303: set the score of every move to its rating. */
    method RateMoves(moves: seq<PlayerMovement>) returns (rated: seq<PlayerMovement>)
      ensures rated == ScoreAll(config, moves)
    {
      rated := moves;
      var i := 0;
      while i < |rated|
        invariant 0 <= i <= |rated| == |moves|
        invariant forall j :: 0 <= j < i ==> rated[j] == moves[j].(score := Rate(config, moves[j]))
        invariant forall j :: i <= j < |rated| ==> rated[j] == moves[j]
      {
        rated := rated[i := rated[i].(score := Rate(config, rated[i]))];
        i := i + 1;
      }
    }

    /**
     * Lines 281-305: below the maximum depth, return the empty solution when the goal is
     * reachable; otherwise gather the moves of every reachable cell, rate them, sort them best
     * first and try them with `SearchDeeper`.
     */
    method SolveSearch(depth: int) returns (solution: Option<seq<PlayerMovement>>)
      requires Valid()
      modifies this`playerPosition, this`piecePullLevels, this`solveMovementTests
      ensures piecePullLevels == old(piecePullLevels)
      ensures var r := Search(config, solveMaxDepth, old(piecePullLevels), old(playerPosition), depth);
        && solution == r.solution
        && playerPosition == r.player
        && solveMovementTests == old(solveMovementTests) + r.tests
      decreases solveMaxDepth - depth, 2
    {
      SearchCases(config, solveMaxDepth, piecePullLevels, playerPosition, depth);
      if depth >= solveMaxDepth {
        return None;
      }
      var reach := GetReachableRecursive(playerPosition);
      var goalReached, moves := GatherPotentialMoves(reach);
      if goalReached {
        return Some([]);
      }
      moves := RateMoves(moves);
      moves := SortByScore(moves);
      assert moves == Candidates(config, piecePullLevels, playerPosition);
      CandidatesKeepLevelsInRange(config, piecePullLevels, playerPosition);
      solution := SearchDeeper(depth, moves);
    }

    /**
     * Lines 308-324: try the sorted moves in turn with `TryCandidate`, and return the move
     * followed by the deeper solution as soon as there is one. Every move keeps the pull levels
     * within 0..3, so each deeper search starts from a `Valid` state.
     */
    method SearchDeeper(depth: int, moves: seq<PlayerMovement>) returns (solution: Option<seq<PlayerMovement>>)
      requires Valid() && depth < solveMaxDepth
      requires forall m :: m in moves ==>
        0 <= m.pieceIndex < |config.pieces| && LevelsInRange(LevelsAfterMove(piecePullLevels, m.pieceIndex, m.pullOut))
      modifies this`playerPosition, this`piecePullLevels, this`solveMovementTests
      ensures piecePullLevels == old(piecePullLevels)
      ensures var r := TryFrom(config, solveMaxDepth, old(piecePullLevels), old(playerPosition), depth, moves, 0, 0);
        && solution == r.solution
        && playerPosition == r.player
        && solveMovementTests == old(solveMovementTests) + r.tests
      decreases solveMaxDepth - depth, 1
    {
      ghost var levels := piecePullLevels;
      ghost var target := TryFrom(config, solveMaxDepth, levels, playerPosition, depth, moves, 0, 0);
      ghost var tests: nat := 0;
      var mIndex := 0;
      while mIndex < |moves|
        invariant 0 <= mIndex <= |moves|
        invariant Valid() && piecePullLevels == levels
        invariant solveMovementTests == old(solveMovementTests) + tests
        invariant TryFrom(config, solveMaxDepth, levels, playerPosition, depth, moves, mIndex, tests) == target
      {
        var m := moves[mIndex];
        assert m in moves;
        ghost var current := playerPosition;
        ghost var sub := SearchAfter(config, solveMaxDepth, levels, m, depth);
        var found := TryCandidate(depth, m);
        if found.Some? {
          TryFromSolved(config, solveMaxDepth, levels, current, depth, moves, mIndex, tests, sub);
          return Some([m] + found.value);
        }
        TryFromSkips(config, solveMaxDepth, levels, current, depth, moves, mIndex, tests, sub);
        tests := tests + 1 + sub.tests;
        mIndex := mIndex + 1;
      }
      TryFromExhausted(config, solveMaxDepth, levels, playerPosition, depth, moves, tests);
      return None;
    }

    /**
     * Lines 311-315: count move `m`, apply it, search one level deeper and undo it, which
     * restores the pull levels and leaves the player where `m` stood.
     */
    method TryCandidate(depth: int, m: PlayerMovement) returns (found: Option<seq<PlayerMovement>>)
      requires Valid() && depth < solveMaxDepth && 0 <= m.pieceIndex < |config.pieces|
      requires LevelsInRange(LevelsAfterMove(piecePullLevels, m.pieceIndex, m.pullOut))
      modifies this`playerPosition, this`piecePullLevels, this`solveMovementTests
      ensures piecePullLevels == old(piecePullLevels)
      ensures var sub := SearchAfter(config, solveMaxDepth, old(piecePullLevels), m, depth);
        && found == sub.solution
        && playerPosition == m.playerPosition
        && solveMovementTests == old(solveMovementTests) + 1 + sub.tests
      decreases solveMaxDepth - depth, 0
    {
      ghost var levels := piecePullLevels;
      solveMovementTests := solveMovementTests + 1;
      var undo := ApplyMove(m);
      found := SolveSearch(depth + 1);
      UndoMove(undo);
      UndoRestoresLevels(levels, m.pieceIndex, m.pullOut);
    }

    /**
     * Lines 274-278: search from depth 0. A solution found is at most `solveMaxDepth - 1` moves
     * long and solves the puzzle from the state the search started in; it is empty exactly
     * when the goal is reachable already. A failed search counts at least one move per
     * candidate of the starting state.
     */
    method Solve() returns (solution: Option<seq<PlayerMovement>>)
      requires Valid()
      modifies this`playerPosition, this`piecePullLevels, this`solveMovementTests
      ensures piecePullLevels == old(piecePullLevels)
      ensures var r := Search(config, solveMaxDepth, old(piecePullLevels), old(playerPosition), 0);
        && solution == r.solution
        && playerPosition == r.player
        && solveMovementTests == old(solveMovementTests) + r.tests
      ensures solution.Some? ==> |solution.value| < solveMaxDepth
      ensures solution.Some? ==> Replays(config, old(piecePullLevels), old(playerPosition), solution.value)
      ensures solution == Some([]) <==>
        0 < solveMaxDepth && config.goal in ReachableFrom(config, old(piecePullLevels), old(playerPosition))
      ensures solution.None? && 0 < solveMaxDepth ==>
        solveMovementTests >= old(solveMovementTests) + |Candidates(config, old(piecePullLevels), old(playerPosition))|
    {
      ghost var levels := piecePullLevels;
      ghost var player := playerPosition;
      SearchIsSound(config, solveMaxDepth, levels, player, 0);
      SearchEmptyIffGoalReachable(config, solveMaxDepth, levels, player, 0);
      SearchFailure(config, solveMaxDepth, levels, player, 0);
      solution := SolveSearch(0);
    }
  }
}
