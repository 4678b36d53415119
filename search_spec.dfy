/**
 * What `solve_search` (src/puzzle_solver.rs:281-325) computes, as functions of the state it
 * starts from: a depth-first search over pulls, best-rated first, bounded by a maximum depth.
 */
module SearchSpec {
  import opened Options
  import opened CellPositions
  import opened PuzzleConfigurations
  import opened PlayerMovements
  import opened SolverPhysics
  import opened Reachability
  import opened MoveGeneration

  /**
   * The outcome of one search call: the moves found, the number of moves it tried (what it
   * adds to `solve_movement_tests`) and where it leaves the player.
   */
  datatype SearchResult = SearchResult(solution: Option<seq<PlayerMovement>>, tests: nat, player: CellPosition)

  /** A move the search may try from `player`: a pull open at a cell reachable from `player`, whatever its score. */
  ghost predicate LegalMove(c: PuzzleConfiguration, levels: seq<int>, player: CellPosition, m: PlayerMovement)
    requires LevelsFit(c, levels)
  {
    m.playerPosition in ReachableFrom(c, levels, player) && m.(score := 0) in MovesAt(c, levels, m.playerPosition)
  }

  /** A scored gathered move is a pull open at one of the cells, rated. */
  lemma ScoredMoveIsGathered(c: PuzzleConfiguration, levels: seq<int>, reach: seq<CellPosition>, m: PlayerMovement)
    requires LevelsFit(c, levels)
    requires m in ScoreAll(c, GatherMoves(c, levels, reach))
    ensures m.playerPosition in reach && m.(score := 0) in MovesAt(c, levels, m.playerPosition)
    ensures m.score == Rate(c, m)
  {
    var gathered := GatherMoves(c, levels, reach);
    ScoreAllKeepsMoves(c, gathered, m);
    var i :| 0 <= i < |gathered| && m == gathered[i].(score := Rate(c, gathered[i]));
    var g := gathered[i];
    assert g in gathered;
    assert g.score == 0;
    assert m.(score := 0) == g;
  }

  /**
   * Lines 287-305: the moves of every cell reachable from `player`, rated and sorted best
   * first. The goal test that interrupts the gathering is left to `Search`.
   */
  function Candidates(c: PuzzleConfiguration, levels: seq<int>, player: CellPosition): (r: seq<PlayerMovement>)
    requires LevelsFit(c, levels)
    ensures SortedByScore(r)
    ensures forall m :: m in r ==> 0 <= m.pieceIndex < |c.pieces| && m.pullOut
  {
    var reach := ReachableFrom(c, levels, player);
    var scored := ScoreAll(c, GatherMoves(c, levels, reach));
    var r := SortByScore(scored);
    SortIsSorted(scored);
    SortIsPermutation(scored);
    assert forall m :: m in r ==> 0 <= m.pieceIndex < |c.pieces| && m.pullOut by {
      forall m | m in r ensures 0 <= m.pieceIndex < |c.pieces| && m.pullOut {
        assert m in multiset(r);
        ScoredMoveIsGathered(c, levels, reach, m);
      }
    }
    r
  }

  /** Every candidate is a legal move from `player`, rated by `Rate`. */
  lemma CandidatesAreLegal(c: PuzzleConfiguration, levels: seq<int>, player: CellPosition)
    requires LevelsFit(c, levels)
    ensures forall m :: m in Candidates(c, levels, player) ==> LegalMove(c, levels, player, m) && m.score == Rate(c, m)
  {
    var reach := ReachableFrom(c, levels, player);
    var scored := ScoreAll(c, GatherMoves(c, levels, reach));
    SortIsPermutation(scored);
    forall m | m in Candidates(c, levels, player) ensures LegalMove(c, levels, player, m) && m.score == Rate(c, m) {
      assert m in multiset(SortByScore(scored));
      ScoredMoveIsGathered(c, levels, reach, m);
    }
  }

  /** Every legal move from `player`, rated by `Rate`, is a candidate: with `CandidatesAreLegal`, the candidates are exactly those. */
  lemma CandidatesAreComplete(c: PuzzleConfiguration, levels: seq<int>, player: CellPosition, m: PlayerMovement)
    requires LevelsFit(c, levels)
    requires LegalMove(c, levels, player, m) && m.score == Rate(c, m)
    ensures m in Candidates(c, levels, player)
  {
    var reach := ReachableFrom(c, levels, player);
    var g := m.(score := 0);
    GatherMovesComplete(c, levels, reach, m.playerPosition, g);
    var gathered := GatherMoves(c, levels, reach);
    var i :| 0 <= i < |gathered| && gathered[i] == g;
    var scored := ScoreAll(c, gathered);
    assert scored[i] == m;
    assert m in multiset(scored);
    SortIsPermutation(scored);
  }

  /** Lines 281-284: nothing beyond the maximum depth; otherwise the search of `Expand`. */
  function Search(c: PuzzleConfiguration, maxDepth: int, levels: seq<int>, player: CellPosition, depth: int): (r: SearchResult)
    requires LevelsFit(c, levels)
    ensures r.solution.Some? ==> depth < maxDepth && |r.solution.value| <= maxDepth - 1 - depth
    decreases maxDepth - depth, 2, 0
  {
    if depth >= maxDepth then SearchResult(None, 0, player) else Expand(c, maxDepth, levels, player, depth)
  }

  /** Lines 289-299 below the maximum depth: the empty solution when the goal is reachable; otherwise `Deepen`. */
  function Expand(c: PuzzleConfiguration, maxDepth: int, levels: seq<int>, player: CellPosition, depth: int): (r: SearchResult)
    requires LevelsFit(c, levels) && depth < maxDepth
    ensures r.solution.Some? ==> |r.solution.value| <= maxDepth - 1 - depth
    decreases maxDepth - depth, 1, 1
  {
    if c.goal in ReachableFrom(c, levels, player) then SearchResult(Some([]), 0, player)
    else Deepen(c, maxDepth, levels, player, depth)
  }

  /** Lines 301-324: the candidates, rated and sorted, tried in order. */
  function Deepen(c: PuzzleConfiguration, maxDepth: int, levels: seq<int>, player: CellPosition, depth: int): (r: SearchResult)
    requires LevelsFit(c, levels) && depth < maxDepth
    ensures r.solution.Some? ==> 1 <= |r.solution.value| <= maxDepth - 1 - depth
    decreases maxDepth - depth, 1, 0
  {
    TryFrom(c, maxDepth, levels, player, depth, Candidates(c, levels, player), 0, 0)
  }

  /** The search stops at once with the empty solution exactly when the goal is reachable below the maximum depth. */
  lemma SearchEmptyIffGoalReachable(c: PuzzleConfiguration, maxDepth: int, levels: seq<int>, player: CellPosition, depth: int)
    requires LevelsFit(c, levels)
    ensures Search(c, maxDepth, levels, player, depth).solution == Some([]) <==>
      depth < maxDepth && c.goal in ReachableFrom(c, levels, player)
  {
    if depth < maxDepth {
      assert Search(c, maxDepth, levels, player, depth) == Expand(c, maxDepth, levels, player, depth);
    }
  }

  /** The three outcomes of one search call: past the maximum depth, goal reachable, or the candidates tried. */
  lemma SearchCases(c: PuzzleConfiguration, maxDepth: int, levels: seq<int>, player: CellPosition, depth: int)
    requires LevelsFit(c, levels)
    ensures depth >= maxDepth ==> Search(c, maxDepth, levels, player, depth) == SearchResult(None, 0, player)
    ensures depth < maxDepth && c.goal in ReachableFrom(c, levels, player) ==>
      Search(c, maxDepth, levels, player, depth) == SearchResult(Some([]), 0, player)
    ensures depth < maxDepth && c.goal !in ReachableFrom(c, levels, player) ==>
      Search(c, maxDepth, levels, player, depth) ==
      TryFrom(c, maxDepth, levels, player, depth, Candidates(c, levels, player), 0, 0)
  {
    if depth < maxDepth {
      assert Search(c, maxDepth, levels, player, depth) == Expand(c, maxDepth, levels, player, depth);
      if c.goal !in ReachableFrom(c, levels, player) {
        assert Expand(c, maxDepth, levels, player, depth) == Deepen(c, maxDepth, levels, player, depth);
      }
    }
  }

  /**
   * Lines 308-322 from candidate `i` on, with `tests` moves tried so far and the player at
   * `player`: apply the move, search one level deeper, undo it (which leaves the player where
   * the move stood), and return the move followed by the deeper solution as soon as one exists.
   */
  function TryFrom(c: PuzzleConfiguration, maxDepth: int, levels: seq<int>, player: CellPosition, depth: int,
                   cands: seq<PlayerMovement>, i: int, tests: nat): (r: SearchResult)
    requires LevelsFit(c, levels) && depth < maxDepth && 0 <= i <= |cands|
    requires forall m :: m in cands ==> 0 <= m.pieceIndex < |c.pieces|
    ensures r.solution.Some? ==> 1 <= |r.solution.value| <= maxDepth - 1 - depth
    ensures r.tests >= tests + |cands| - i || r.solution.Some?
    decreases maxDepth - depth, 0, |cands| - i
  {
    if i == |cands| then SearchResult(None, tests, player)
    else
      var m := cands[i];
      assert m in cands;
      var sub := Search(c, maxDepth, LevelsAfterMove(levels, m.pieceIndex, m.pullOut), m.playerPosition, depth + 1);
      var tests' := tests + 1 + sub.tests;
      if sub.solution.Some? then SearchResult(Some([m] + sub.solution.value), tests', m.playerPosition)
      else TryFrom(c, maxDepth, levels, m.playerPosition, depth, cands, i + 1, tests')
  }

  /**
   * `sol` solves the puzzle from this state: each move is legal where the previous ones leave
   * the player and the pieces, and after the last one the goal is reachable.
   */
  ghost predicate Replays(c: PuzzleConfiguration, levels: seq<int>, player: CellPosition, sol: seq<PlayerMovement>)
    requires LevelsFit(c, levels)
    decreases |sol|
  {
    if sol == [] then c.goal in ReachableFrom(c, levels, player)
    else
      var m := sol[0];
      LegalMove(c, levels, player, m) &&
      Replays(c, LevelsAfterMove(levels, m.pieceIndex, m.pullOut), m.playerPosition, sol[1..])
  }

  /** A legal move followed by a solution of the state it leads to is a solution. */
  lemma ReplaysCons(c: PuzzleConfiguration, levels: seq<int>, player: CellPosition, m: PlayerMovement,
                    sol: seq<PlayerMovement>)
    requires LevelsFit(c, levels) && 0 <= m.pieceIndex < |levels|
    requires LegalMove(c, levels, player, m)
    requires Replays(c, LevelsAfterMove(levels, m.pieceIndex, m.pullOut), m.playerPosition, sol)
    ensures Replays(c, levels, player, [m] + sol)
  {
    assert ([m] + sol)[0] == m && ([m] + sol)[1..] == sol;
  }

  /** Every solution the search returns solves the puzzle from the state it started in. */
  lemma {:induction false} SearchIsSound(c: PuzzleConfiguration, maxDepth: int, levels: seq<int>, player: CellPosition, depth: int)
    requires LevelsFit(c, levels)
    ensures Search(c, maxDepth, levels, player, depth).solution.Some? ==>
      Replays(c, levels, player, Search(c, maxDepth, levels, player, depth).solution.value)
    decreases maxDepth - depth, 1, 0
  {
    if depth < maxDepth && c.goal !in ReachableFrom(c, levels, player) {
      assert Search(c, maxDepth, levels, player, depth) == Expand(c, maxDepth, levels, player, depth)
                                                         == Deepen(c, maxDepth, levels, player, depth);
      CandidatesAreLegal(c, levels, player);
      TryFromIsSound(c, maxDepth, levels, player, player, depth, Candidates(c, levels, player), 0, 0);
    }
  }

  /** The search one level deeper after move `m`. */
  function SearchAfter(c: PuzzleConfiguration, maxDepth: int, levels: seq<int>, m: PlayerMovement, depth: int): SearchResult
    requires LevelsFit(c, levels) && 0 <= m.pieceIndex < |c.pieces|
  {
    Search(c, maxDepth, LevelsAfterMove(levels, m.pieceIndex, m.pullOut), m.playerPosition, depth + 1)
  }

  /** Candidate `i` solves when the search one level deeper after its move does. */
  lemma TryFromSolved(c: PuzzleConfiguration, maxDepth: int, levels: seq<int>, player: CellPosition, depth: int,
                      cands: seq<PlayerMovement>, i: int, tests: nat, sub: SearchResult)
    requires LevelsFit(c, levels) && depth < maxDepth && 0 <= i < |cands|
    requires forall m :: m in cands ==> 0 <= m.pieceIndex < |c.pieces|
    requires 0 <= cands[i].pieceIndex < |c.pieces| && sub == SearchAfter(c, maxDepth, levels, cands[i], depth)
    requires sub.solution.Some?
    ensures TryFrom(c, maxDepth, levels, player, depth, cands, i, tests) ==
            SearchResult(Some([cands[i]] + sub.solution.value), tests + 1 + sub.tests, cands[i].playerPosition)
  {
    assert cands[i] in cands;
  }

  /** Past the last candidate the search has failed, counting the moves it tried. */
  lemma TryFromExhausted(c: PuzzleConfiguration, maxDepth: int, levels: seq<int>, player: CellPosition, depth: int,
                         cands: seq<PlayerMovement>, tests: nat)
    requires LevelsFit(c, levels) && depth < maxDepth
    requires forall m :: m in cands ==> 0 <= m.pieceIndex < |c.pieces|
    ensures TryFrom(c, maxDepth, levels, player, depth, cands, |cands|, tests) == SearchResult(None, tests, player)
  {
  }

  /** Otherwise the search moves on to candidate `i + 1`, from where the move stood, counting the moves it tried. */
  lemma TryFromSkips(c: PuzzleConfiguration, maxDepth: int, levels: seq<int>, player: CellPosition, depth: int,
                     cands: seq<PlayerMovement>, i: int, tests: nat, sub: SearchResult)
    requires LevelsFit(c, levels) && depth < maxDepth && 0 <= i < |cands|
    requires forall m :: m in cands ==> 0 <= m.pieceIndex < |c.pieces|
    requires 0 <= cands[i].pieceIndex < |c.pieces| && sub == SearchAfter(c, maxDepth, levels, cands[i], depth)
    requires sub.solution.None?
    ensures TryFrom(c, maxDepth, levels, player, depth, cands, i, tests) ==
            TryFrom(c, maxDepth, levels, cands[i].playerPosition, depth, cands, i + 1, tests + 1 + sub.tests)
  {
    var m := cands[i];
    assert m in cands;
    assert TryFrom(c, maxDepth, levels, player, depth, cands, i, tests) ==
           TryFrom(c, maxDepth, levels, m.playerPosition, depth, cands, i + 1, tests + 1 + sub.tests);
  }

  lemma {:induction false} TryFromIsSound(c: PuzzleConfiguration, maxDepth: int, levels: seq<int>, start: CellPosition,
                                          player: CellPosition, depth: int, cands: seq<PlayerMovement>, i: int, tests: nat)
    requires LevelsFit(c, levels) && depth < maxDepth && 0 <= i <= |cands|
    requires forall m :: m in cands ==> 0 <= m.pieceIndex < |c.pieces|
    requires forall m :: m in cands ==> LegalMove(c, levels, start, m)
    ensures TryFrom(c, maxDepth, levels, player, depth, cands, i, tests).solution.Some? ==>
      Replays(c, levels, start, TryFrom(c, maxDepth, levels, player, depth, cands, i, tests).solution.value)
    decreases maxDepth - depth, 0, |cands| - i
  {
    if i < |cands| {
      var m := cands[i];
      assert m in cands;
      var levels' := LevelsAfterMove(levels, m.pieceIndex, m.pullOut);
      var sub := SearchAfter(c, maxDepth, levels, m, depth);
      SearchIsSound(c, maxDepth, levels', m.playerPosition, depth + 1);
      if sub.solution.Some? {
        assert LegalMove(c, levels, start, m);
        ReplaysCons(c, levels, start, m, sub.solution.value);
        TryFromSolved(c, maxDepth, levels, player, depth, cands, i, tests, sub);
      } else {
        TryFromSkips(c, maxDepth, levels, player, depth, cands, i, tests, sub);
        TryFromIsSound(c, maxDepth, levels, start, m.playerPosition, depth, cands, i + 1, tests + 1 + sub.tests);
      }
    }
  }

  /**
   * A run over candidates `i..` that finds nothing leaves the player where the last candidate
   * stood, since each undo puts the player on the undone move's cell; with no candidate left
   * the player stays where it is.
   */
  lemma {:induction false} TryFromFailsAtLast(c: PuzzleConfiguration, maxDepth: int, levels: seq<int>, player: CellPosition,
                                              depth: int, cands: seq<PlayerMovement>, i: int, tests: nat)
    requires LevelsFit(c, levels) && depth < maxDepth && 0 <= i <= |cands|
    requires forall m :: m in cands ==> 0 <= m.pieceIndex < |c.pieces|
    ensures var r := TryFrom(c, maxDepth, levels, player, depth, cands, i, tests);
      r.solution.None? ==> r.player == if i == |cands| then player else cands[|cands| - 1].playerPosition
    decreases |cands| - i
  {
    if i < |cands| {
      var m := cands[i];
      assert m in cands;
      var sub := SearchAfter(c, maxDepth, levels, m, depth);
      if sub.solution.None? {
        TryFromSkips(c, maxDepth, levels, player, depth, cands, i, tests, sub);
        TryFromFailsAtLast(c, maxDepth, levels, m.playerPosition, depth, cands, i + 1, tests + 1 + sub.tests);
      } else {
        TryFromSolved(c, maxDepth, levels, player, depth, cands, i, tests, sub);
      }
    } else {
      TryFromExhausted(c, maxDepth, levels, player, depth, cands, tests);
    }
  }

  /**
   * A search that finds nothing below the maximum depth has counted at least one move per
   * candidate and leaves the player where the last candidate stood; past the maximum depth,
   * or with no candidate, the player stays where it is.
   */
  lemma SearchFailure(c: PuzzleConfiguration, maxDepth: int, levels: seq<int>, player: CellPosition, depth: int)
    requires LevelsFit(c, levels)
    ensures var r := Search(c, maxDepth, levels, player, depth);
      var cands := Candidates(c, levels, player);
      r.solution.None? ==>
        && (depth < maxDepth ==> r.tests >= |cands|)
        && r.player == if depth >= maxDepth || cands == [] then player else cands[|cands| - 1].playerPosition
  {
    SearchCases(c, maxDepth, levels, player, depth);
    if depth < maxDepth && c.goal !in ReachableFrom(c, levels, player) {
      TryFromFailsAtLast(c, maxDepth, levels, player, depth, Candidates(c, levels, player), 0, 0);
    }
  }

  /** Every candidate pulls a piece out and, from levels in range, keeps them in range. */
  lemma CandidatesKeepLevelsInRange(c: PuzzleConfiguration, levels: seq<int>, player: CellPosition)
    requires LevelsFit(c, levels) && LevelsInRange(levels)
    ensures forall m :: m in Candidates(c, levels, player) ==>
      0 <= m.pieceIndex < |levels| && m.pullOut && LevelsInRange(LevelsAfterMove(levels, m.pieceIndex, m.pullOut))
  {
    CandidatesAreLegal(c, levels, player);
    forall m | m in Candidates(c, levels, player)
      ensures 0 <= m.pieceIndex < |levels| && m.pullOut && LevelsInRange(LevelsAfterMove(levels, m.pieceIndex, m.pullOut))
    {
      LegalMoveKeepsLevelsInRange(c, levels, player, m);
    }
  }

  /** The pull levels after playing `sol`. */
  function LevelsAfterMoves(levels: seq<int>, sol: seq<PlayerMovement>): seq<int>
    requires forall m :: m in sol ==> 0 <= m.pieceIndex < |levels|
    decreases |sol|
  {
    if sol == [] then levels
    else LevelsAfterMoves(LevelsAfterMove(levels, sol[0].pieceIndex, sol[0].pullOut), sol[1..])
  }

  /** The first move of a solution is legal and the rest solves the state it leads to. */
  lemma ReplaysFirst(c: PuzzleConfiguration, levels: seq<int>, player: CellPosition, sol: seq<PlayerMovement>)
    requires LevelsFit(c, levels) && sol != []
    requires Replays(c, levels, player, sol)
    ensures LegalMove(c, levels, player, sol[0]) && 0 <= sol[0].pieceIndex < |levels|
    ensures Replays(c, LevelsAfterMove(levels, sol[0].pieceIndex, sol[0].pullOut), sol[0].playerPosition, sol[1..])
  {
  }

  /** A legal move pulls a piece out and, from levels in range, keeps them in range. */
  lemma LegalMoveKeepsLevelsInRange(c: PuzzleConfiguration, levels: seq<int>, player: CellPosition, m: PlayerMovement)
    requires LevelsFit(c, levels) && LevelsInRange(levels)
    requires LegalMove(c, levels, player, m)
    ensures m.pullOut && 0 <= m.pieceIndex < |levels|
    ensures LevelsInRange(LevelsAfterMove(levels, m.pieceIndex, m.pullOut))
  {
    assert PullFrom(c, levels, m.playerPosition, m.(score := 0));
    MovesKeepLevelsInRange(c, levels, m.playerPosition, m.(score := 0));
  }

  /** Playing a solution from levels in range pulls every piece out, never beyond level 3. */
  lemma {:induction false} SolutionKeepsLevelsInRange(c: PuzzleConfiguration, levels: seq<int>, player: CellPosition,
                                                      sol: seq<PlayerMovement>)
    requires LevelsFit(c, levels) && LevelsInRange(levels)
    requires Replays(c, levels, player, sol)
    ensures forall m :: m in sol ==> 0 <= m.pieceIndex < |levels| && m.pullOut
    ensures LevelsInRange(LevelsAfterMoves(levels, sol))
    decreases |sol|
  {
    if sol != [] {
      var m := sol[0];
      ReplaysFirst(c, levels, player, sol);
      LegalMoveKeepsLevelsInRange(c, levels, player, m);
      var levels' := LevelsAfterMove(levels, m.pieceIndex, m.pullOut);
      SolutionKeepsLevelsInRange(c, levels', m.playerPosition, sol[1..]);
      forall x | x in sol ensures 0 <= x.pieceIndex < |levels| && x.pullOut {
        if x != m {
          assert x in sol[1..];
        }
      }
    }
  }
}
