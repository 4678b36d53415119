/**
 * The moves the search considers (src/puzzle_solver.rs:227-260 and 290-304): the pulls
 * available from one standing cell, the moves of every reachable cell, and their order.
 */
module MoveGeneration {
  import opened CellPositions
  import opened PuzzleConfigurations
  import opened PlayerMovements
  import opened SolverPhysics

  /** Lines 241-247 and 250-257: pull the piece at `side` if it is pulled out one or two levels. */
  function SidePull(c: PuzzleConfiguration, levels: seq<int>, pos: CellPosition, side: CellPosition): seq<PlayerMovement>
    requires LevelsFit(c, levels)
  {
    var level := PullLevelAt(c, levels, side);
    if PieceAt(c, side) != Hole && 0 < level < 3 then [PlayerMovement(pos, PieceAt(c, side), true, 0)] else []
  }

  /** A move of `MovesAt` for a player standing at `pos`, with `at` and `under` the levels there and below. */
  predicate PullFrom(c: PuzzleConfiguration, levels: seq<int>, pos: CellPosition, m: PlayerMovement)
    requires LevelsFit(c, levels)
  {
    var at := PullLevelAt(c, levels, pos);
    var under := PullLevelAt(c, levels, pos.Add(0, 1));
    && m.playerPosition == pos && m.pullOut && m.score == 0
    && 0 <= m.pieceIndex < |c.pieces|
    && ((m.pieceIndex == PieceAt(c, pos) && at < under - 1)
        || (under - at >= 2 && (PullsSide(c, levels, pos.Add(1, 0), m) || PullsSide(c, levels, pos.Add(-1, 0), m))))
  }

  /** `m` pulls the piece at `side`, which is pulled out one or two levels. */
  predicate PullsSide(c: PuzzleConfiguration, levels: seq<int>, side: CellPosition, m: PlayerMovement)
    requires LevelsFit(c, levels)
  {
    m.pieceIndex == PieceAt(c, side) && 0 < PullLevelAt(c, levels, side) < 3
  }

  /**
   * Lines 227-260: the pulls open to a player at `pos`: the piece in front, when it sticks out
   * at least two levels less than the cell below, then, when the cell below sticks out at least two
   * levels more than `pos`, the pieces to the right and to the left that are pulled out one or
   * two levels. Every move pulls out and carries score 0.
   */
  function MovesAt(c: PuzzleConfiguration, levels: seq<int>, pos: CellPosition): (r: seq<PlayerMovement>)
    requires LevelsFit(c, levels)
    ensures |r| <= 3
    ensures forall m :: m in r ==> PullFrom(c, levels, pos, m)
  {
    var at := PullLevelAt(c, levels, pos);
    var under := PullLevelAt(c, levels, pos.Add(0, 1));
    var front := if PieceAt(c, pos) != Hole && at < under - 1 then [PlayerMovement(pos, PieceAt(c, pos), true, 0)] else [];
    if under - at >= 2 then
      var right := SidePull(c, levels, pos, pos.Add(1, 0));
      var left := SidePull(c, levels, pos, pos.Add(-1, 0));
      assert forall m :: m in right ==> PullFrom(c, levels, pos, m);
      assert forall m :: m in left ==> PullFrom(c, levels, pos, m);
      front + right + left
    else front
  }

  /** `MovesAt` lists exactly the pulls open at `pos`: none is missing and none is extra. */
  lemma MovesAtIsComplete(c: PuzzleConfiguration, levels: seq<int>, pos: CellPosition, m: PlayerMovement)
    requires LevelsFit(c, levels)
    ensures m in MovesAt(c, levels, pos) <==> PullFrom(c, levels, pos, m)
  {

  }

  /** A pull never takes a piece beyond level 3: with levels in range, applying any such move keeps them in range. */
  lemma MovesKeepLevelsInRange(c: PuzzleConfiguration, levels: seq<int>, pos: CellPosition, m: PlayerMovement)
    requires LevelsFit(c, levels) && LevelsInRange(levels)
    requires m in MovesAt(c, levels, pos)
    ensures levels[m.pieceIndex] <= 2
    ensures LevelsInRange(LevelsAfterMove(levels, m.pieceIndex, m.pullOut))
  {
    var at := PullLevelAt(c, levels, pos);
    var under := PullLevelAt(c, levels, pos.Add(0, 1));
    if m.pieceIndex == PieceAt(c, pos) && at < under - 1 {
      assert at == levels[m.pieceIndex];
    } else {
      var side := if PullsSide(c, levels, pos.Add(1, 0), m) then pos.Add(1, 0) else pos.Add(-1, 0);
      assert PullsSide(c, levels, side, m);
      assert PullLevelAt(c, levels, side) == levels[m.pieceIndex];
    }
  }

  /** Lines 293-299 without the goal test: the moves of every cell of `reach`, cell by cell. */
  function GatherMoves(c: PuzzleConfiguration, levels: seq<int>, reach: seq<CellPosition>): (r: seq<PlayerMovement>)
    requires LevelsFit(c, levels)
    ensures forall m :: m in r ==> m.playerPosition in reach && m in MovesAt(c, levels, m.playerPosition)
    ensures |r| <= 3 * |reach|
    decreases |reach|
  {
    if reach == [] then []
    else
      var front := GatherMoves(c, levels, reach[..|reach| - 1]);
      var last := reach[|reach| - 1];
      assert forall m :: m in MovesAt(c, levels, last) ==> m.playerPosition == last;
      front + MovesAt(c, levels, last)
  }

  /** Every pull open at a cell of `reach` is gathered: with the contract above, the moves gathered are exactly those. */
  lemma {:induction false} GatherMovesComplete(c: PuzzleConfiguration, levels: seq<int>, reach: seq<CellPosition>, r: CellPosition, m: PlayerMovement)
    requires LevelsFit(c, levels)
    requires r in reach && m in MovesAt(c, levels, r)
    ensures m in GatherMoves(c, levels, reach)
    decreases |reach|
  {
    var init := reach[..|reach| - 1];
    if r != reach[|reach| - 1] {
      assert reach == init + [reach[|reach| - 1]];
      GatherMovesComplete(c, levels, init, r, m);
    }
  }

  /** Lines 302-303: every move rated by `Rate`. */
  function ScoreAll(c: PuzzleConfiguration, ms: seq<PlayerMovement>): seq<PlayerMovement>
  {
    seq(|ms|, i requires 0 <= i < |ms| => ms[i].(score := Rate(c, ms[i])))
  }

  /** Scoring keeps each move and only sets its score. */
  lemma ScoreAllKeepsMoves(c: PuzzleConfiguration, ms: seq<PlayerMovement>, m: PlayerMovement)
    requires m in ScoreAll(c, ms)
    ensures exists i :: 0 <= i < |ms| && m == ms[i].(score := Rate(c, ms[i]))
  {
    var i :| 0 <= i < |ScoreAll(c, ms)| && ScoreAll(c, ms)[i] == m;
  }

  predicate SortedByScore(ms: seq<PlayerMovement>)
  {
    forall i, j :: 0 <= i < j < |ms| ==> ms[i].score >= ms[j].score
  }

  /** Places `x` before the first move that does not score higher. */
  function Insert(x: PlayerMovement, ms: seq<PlayerMovement>): seq<PlayerMovement>
    decreases |ms|
  {
    if ms == [] || ms[0].score <= x.score then [x] + ms
    else [ms[0]] + Insert(x, ms[1..])
  }

  /** Inserting adds `x` and keeps every other move. */
  lemma {:induction false} InsertIsPermutation(x: PlayerMovement, ms: seq<PlayerMovement>)
    ensures multiset(Insert(x, ms)) == multiset(ms) + multiset{x}
    decreases |ms|
  {
    if ms != [] && ms[0].score > x.score {
      InsertIsPermutation(x, ms[1..]);
      assert ms == [ms[0]] + ms[1..];
    }
  }

  /** Every move of `ms` scores at most `v`. */
  predicate ScoresAtMost(ms: seq<PlayerMovement>, v: int)
  {
    forall i :: 0 <= i < |ms| ==> ms[i].score <= v
  }

  lemma {:induction false} InsertKeepsSorted(x: PlayerMovement, ms: seq<PlayerMovement>)
    requires SortedByScore(ms)
    ensures SortedByScore(Insert(x, ms))
    ensures forall v :: ScoresAtMost(ms, v) && x.score <= v ==> ScoresAtMost(Insert(x, ms), v)
    decreases |ms|
  {
    if ms != [] && ms[0].score > x.score {
      InsertKeepsSorted(x, ms[1..]);
      var rest := Insert(x, ms[1..]);
      assert ScoresAtMost(ms[1..], ms[0].score);
      assert ScoresAtMost(rest, ms[0].score);
      assert Insert(x, ms) == [ms[0]] + rest;
      forall v | ScoresAtMost(ms, v) && x.score <= v ensures ScoresAtMost(Insert(x, ms), v) {
        assert ScoresAtMost(ms[1..], v);
      }
    }
  }

  /**
   * Line 305: `sort_by` with the comparator `b.score` against `a.score` orders by descending
   * score; it is a stable sort, so moves of equal score keep their gathered order. The sort is
   * insertion of each move, from the last one back, into the sorted rest.
   */
  function SortByScore(ms: seq<PlayerMovement>): seq<PlayerMovement>
    decreases |ms|
  {
    if ms == [] then [] else Insert(ms[0], SortByScore(ms[1..]))
  }

  /** The sort keeps every move, as often as it occurs. */
  lemma {:induction false} SortIsPermutation(ms: seq<PlayerMovement>)
    ensures multiset(SortByScore(ms)) == multiset(ms)
    decreases |ms|
  {
    if ms != [] {
      SortIsPermutation(ms[1..]);
      InsertIsPermutation(ms[0], SortByScore(ms[1..]));
      assert ms == [ms[0]] + ms[1..];
    }
  }

  /** The sort orders by descending score. */
  lemma {:induction false} SortIsSorted(ms: seq<PlayerMovement>)
    ensures SortedByScore(SortByScore(ms))
    decreases |ms|
  {
    if ms != [] {
      SortIsSorted(ms[1..]);
      InsertKeepsSorted(ms[0], SortByScore(ms[1..]));
    }
  }

  /** The moves of `ms` scoring `v`, in order. */
  function WithScore(ms: seq<PlayerMovement>, v: int): seq<PlayerMovement>
    decreases |ms|
  {
    if ms == [] then []
    else (if ms[0].score == v then [ms[0]] else []) + WithScore(ms[1..], v)
  }

  /** Inserting `x` adds it in front of the moves of its own score and keeps every other score's moves. */
  lemma {:induction false} InsertIsStable(x: PlayerMovement, ms: seq<PlayerMovement>, v: int)
    ensures WithScore(Insert(x, ms), v) == (if x.score == v then [x] else []) + WithScore(ms, v)
    decreases |ms|
  {
    if ms == [] || ms[0].score <= x.score {
      assert ([x] + ms)[1..] == ms;
      if ms != [] && ms[0].score == v && x.score != v {
        assert ms[0].score < x.score;
      }
    } else {
      var rest := Insert(x, ms[1..]);
      InsertIsStable(x, ms[1..], v);
      assert ([ms[0]] + rest)[1..] == rest;
      if x.score == v {
        assert ms[0].score != v;
      }
    }
  }

  /** The sort is stable: for every score, its moves keep their relative order. */
  lemma {:induction false} SortIsStable(ms: seq<PlayerMovement>, v: int)
    ensures WithScore(SortByScore(ms), v) == WithScore(ms, v)
    decreases |ms|
  {
    if ms != [] {
      SortIsStable(ms[1..], v);
      InsertIsStable(ms[0], SortByScore(ms[1..]), v);
    }
  }

  lemma {:induction false} WithScoreMembers(ms: seq<PlayerMovement>, v: int)
    ensures forall m :: m in WithScore(ms, v) <==> m in ms && m.score == v
    decreases |ms|
  {
    if ms != [] {
      WithScoreMembers(ms[1..], v);
      assert ms == [ms[0]] + ms[1..];
    }
  }

  lemma HeadIsMember(ms: seq<PlayerMovement>)
    ensures ms != [] ==> ms[0] in ms
  {
  }

  lemma WithScoreOfTail(ms: seq<PlayerMovement>, v: int)
    requires ms != []
    ensures WithScore(ms[1..], v) == if ms[0].score == v then WithScore(ms, v)[1..] else WithScore(ms, v)
  {
  }

  /**
   * A descending sort that keeps each score's moves in order has only one possible result,
   * so `SortByScore` is what any stable sort by descending score yields.
   */
  lemma {:induction false} StableSortIsUnique(a: seq<PlayerMovement>, b: seq<PlayerMovement>)
    requires SortedByScore(a) && SortedByScore(b)
    requires forall v :: WithScore(a, v) == WithScore(b, v)
    ensures a == b
    decreases |a|
  {
    forall m ensures m in a <==> m in b {
      WithScoreMembers(a, m.score);
      WithScoreMembers(b, m.score);
    }
    HeadIsMember(a);
    HeadIsMember(b);
    if a != [] && b != [] {
      WithScoreMembers(a, b[0].score);
      WithScoreMembers(b, b[0].score);
      WithScoreMembers(a, a[0].score);
      WithScoreMembers(b, a[0].score);
      assert a[0] in WithScore(a, a[0].score);
      assert b[0] in WithScore(b, b[0].score);
      assert b[0] in a;
      assert a[0] in b;
      assert a[0].score == b[0].score;
      var v := a[0].score;
      assert a == [a[0]] + a[1..] && b == [b[0]] + b[1..];
      assert WithScore(a, v) == [a[0]] + WithScore(a[1..], v);
      assert WithScore(b, v) == [b[0]] + WithScore(b[1..], v);
      assert a[0] == WithScore(a, v)[0] == WithScore(b, v)[0] == b[0];
      forall w ensures WithScore(a[1..], w) == WithScore(b[1..], w) {
        WithScoreOfTail(a, w);
        WithScoreOfTail(b, w);
      }
      StableSortIsUnique(a[1..], b[1..]);
    }
  }
}
