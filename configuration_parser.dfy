/**
 * `PuzzleConfiguration::new_from_string` (src/puzzle_configuration.rs:25-150): scan the
 * text, find the pieces, then build the cell-to-piece matrix.
 */
module ConfigurationParser {
  import opened Options
  import opened CellPositions
  import opened PuzzleConfigurations
  import opened PuzzleScan
  import opened PieceExtraction

  /** The character loop (lines 38-69), with the same five variables as the source. */
  method ScanText(s: string) returns (cells: Grid, xCurrent: int, width: int, height: int, goal: CellPosition)
    ensures ScanState(cells, xCurrent, width, height, goal) == Scan(s)
  {
    goal := CellPosition(-1, -1);
    width := 0;
    xCurrent := 0;
    cells := [[]];
    height := 1;
    for i := 0 to |s|
      invariant ScanState(cells, xCurrent, width, height, goal) == Scan(s[..i])
    {
      var c := s[i];
      assert s[..i + 1][..i] == s[..i] && s[..i + 1][i] == c;
      if 'A' <= c <= 'Z' {
        cells := cells[height - 1 := cells[height - 1] + [(c as int) - ('A' as int)]];
        xCurrent := xCurrent + 1;
      } else if c == '.' {
        cells := cells[height - 1 := cells[height - 1] + [-1]];
        xCurrent := xCurrent + 1;
      } else if c == '*' {
        goal := CellPosition(xCurrent - 1, height - 2);
      } else if c == '\n' {
        if xCurrent > width {
          width := xCurrent;
        }
        xCurrent := 0;
        cells := cells + [[]];
        height := height + 1;
      }
    }
    assert s[..|s|] == s;
  }

  /** The number of values a Rust range `a..b` yields. */
  function RangeLength(a: int, b: int): (n: nat)
    ensures a < b ==> n == b - a
    ensures a >= b ==> n == 0
  {
    if a < b then b - a else 0
  }

  /**
   * The bottom-trimming loop at lines 73-83 ranges over `(cells.len() - 1)..0`; since the
   * scan always leaves at least one row, that range is empty and the loop never runs.
   */
  lemma TrimRangeIsEmpty(s: string)
    ensures RangeLength(|Scan(s).rows| - 1, 0) == 0
  {
  }

  /**
   * Line 144 indexes row `y` of the matrix at column `x` for every cell of every piece; the
   * matrix rows are `width` long, so this stays in bounds exactly when no lettered cell of
   * the last row, which is not counted in `width`, lies at or beyond column `width`.
   */
  predicate LastRowFits(st: ScanState)
    requires Shaped(st)
  {
    var last := st.rows[st.height - 1];
    forall x :: 0 <= x < |last| && x >= st.width ==> last[x] == Hole
  }

  /** Under `LastRowFits`, every lettered cell of the scan lies inside the `width` by `height` matrix. */
  lemma LetteredCellsFit(s: string)
    requires LastRowFits(Scan(s))
    ensures forall p :: InGrid(Scan(s).rows, p) && At(Scan(s).rows, p) != Hole ==>
      0 <= p.x < Scan(s).width && 0 <= p.y < Scan(s).height
  {
    WidthIsLongestTerminatedRow(s);
  }

  /** The matrix of lines 127-136: `height` rows of `width` entries -1. */
  method BlankMatrix(height: int, width: int) returns (m: seq<seq<int>>)
    requires width >= 0
    ensures |m| == if height > 0 then height else 0
    ensures forall y :: 0 <= y < |m| ==> |m[y]| == width && forall x :: 0 <= x < width ==> m[y][x] == Hole
  {
    m := [];
    var y := 0;
    while y < height
      invariant 0 <= y <= (if height > 0 then height else 0) && |m| == y
      invariant forall y' :: 0 <= y' < y ==> |m[y']| == width && forall x :: 0 <= x < width ==> m[y'][x] == Hole
    {
      var row := [];
      for x := 0 to width
        invariant |row| == x && forall x' :: 0 <= x' < x ==> row[x'] == Hole
      {
        row := row + [-1];
      }
      assert forall x :: 0 <= x < width ==> row[x] == Hole;
      m := m + [row];
      assert m[y] == row;
      y := y + 1;
    }
  }

  /** The cells of `pieces[..n]`, and of `pieces[n]` the first `k`, carry their piece index in `m`. */
  ghost predicate Written(m: seq<seq<int>>, width: int, height: int, pieces: seq<Piece>, n: int, k: int)
    requires MatrixShaped(m, width, height, |pieces|)
    requires forall i, j :: 0 <= i < |pieces| && 0 <= j < |pieces[i].cells| ==>
      0 <= pieces[i].cells[j].x < width && 0 <= pieces[i].cells[j].y < height
  {
    forall i, j :: (0 <= i < |pieces| && 0 <= j < |pieces[i].cells| && (i < n || (i == n && j < k))) ==>
      m[pieces[i].cells[j].y][pieces[i].cells[j].x] == i
  }

  /** Every entry set so far names a piece numbered up to `n` that holds the cell. */
  ghost predicate WrittenOnlyFrom(m: seq<seq<int>>, width: int, height: int, pieces: seq<Piece>, n: int)
    requires MatrixShaped(m, width, height, |pieces|)
  {
    forall y, x :: 0 <= y < height && 0 <= x < width && m[y][x] != Hole ==>
      m[y][x] <= n && CellPosition(x, y) in pieces[m[y][x]].cells
  }

  /**
   * Lines 139-146: writes every piece's index into the cells it holds. Because pieces are
   * disjoint and duplicate-free, no write overwrites an earlier one.
   */
  method FillMatrix(m0: seq<seq<int>>, pieces: seq<Piece>, height: int, width: int) returns (m: seq<seq<int>>)
    requires MatrixShaped(m0, width, height, |pieces|)
    requires forall y, x :: 0 <= y < height && 0 <= x < width ==> m0[y][x] == Hole
    requires forall i, j :: 0 <= i < |pieces| && 0 <= j < |pieces[i].cells| ==>
      0 <= pieces[i].cells[j].x < width && 0 <= pieces[i].cells[j].y < height
    requires forall i :: 0 <= i < |pieces| ==> NoDuplicates(pieces[i].cells)
    requires forall i, j, p :: (0 <= i < |pieces| && 0 <= j < |pieces| &&
      p in pieces[i].cells && p in pieces[j].cells) ==> i == j
    ensures MatrixShaped(m, width, height, |pieces|)
    ensures MatrixIndexes(m, width, height, pieces)
  {
    m := m0;
    for pieceIndex := 0 to |pieces|
      invariant MatrixShaped(m, width, height, |pieces|)
      invariant Written(m, width, height, pieces, pieceIndex, 0)
      invariant WrittenOnlyFrom(m, width, height, pieces, pieceIndex - 1)
    {
      var cells := pieces[pieceIndex].cells;
      for k := 0 to |cells|
        invariant MatrixShaped(m, width, height, |pieces|)
        invariant Written(m, width, height, pieces, pieceIndex, k)
        invariant WrittenOnlyFrom(m, width, height, pieces, pieceIndex)
      {
        var cellPos := cells[k];
        ghost var m' := m;
        m := m[cellPos.y := m[cellPos.y][cellPos.x := pieceIndex]];
        WriteKeepsWritten(m', m, width, height, pieces, pieceIndex, k);
      }
    }
  }

  /** One write of line 144 keeps the earlier writes and adds the new one. */
  lemma WriteKeepsWritten(m: seq<seq<int>>, m': seq<seq<int>>, width: int, height: int, pieces: seq<Piece>,
                          n: int, k: int)
    requires 0 <= n < |pieces| && 0 <= k < |pieces[n].cells|
    requires MatrixShaped(m, width, height, |pieces|)
    requires forall i, j :: 0 <= i < |pieces| && 0 <= j < |pieces[i].cells| ==>
      0 <= pieces[i].cells[j].x < width && 0 <= pieces[i].cells[j].y < height
    requires NoDuplicates(pieces[n].cells)
    requires forall i, j, p :: (0 <= i < |pieces| && 0 <= j < |pieces| &&
      p in pieces[i].cells && p in pieces[j].cells) ==> i == j
    requires Written(m, width, height, pieces, n, k) && WrittenOnlyFrom(m, width, height, pieces, n)
    requires var c := pieces[n].cells[k]; m' == m[c.y := m[c.y][c.x := n]]
    ensures MatrixShaped(m', width, height, |pieces|)
    ensures Written(m', width, height, pieces, n, k + 1) && WrittenOnlyFrom(m', width, height, pieces, n)
  {
    var c := pieces[n].cells[k];
    forall i, j | 0 <= i < |pieces| && 0 <= j < |pieces[i].cells| && (i < n || (i == n && j < k + 1))
      ensures m'[pieces[i].cells[j].y][pieces[i].cells[j].x] == i
    {
      var e := pieces[i].cells[j];
      if e == c {
        assert c in pieces[i].cells && c in pieces[n].cells;
        assert i == n && j == k;
      }
    }
  }

  /**
   * Lines 25-150. The text always parses: the result has the scan's width, height and goal,
   * a matrix of the right shape that agrees with the pieces, and the pieces of the scanned
   * grid found by `FindPieces`.
   */
  method NewFromString(s: string) returns (r: Option<PuzzleConfiguration>)
    requires LastRowFits(Scan(s))
    ensures r.Some?
    ensures r.value.width == Scan(s).width && r.value.height == Scan(s).height && r.value.goal == Scan(s).goal
    ensures ValidConfiguration(r.value) && MatrixAgreesWithPieces(r.value)
    ensures PiecesOf(Scan(s).rows, r.value.pieces)
  {
    var cells, xCurrent, width, height, goal := ScanText(s);
    TrimRangeIsEmpty(s);
    WidthIsLongestTerminatedRow(s);
    LetteredCellsFit(s);
    var pieces := FindPieces(cells);
    forall i, j | 0 <= i < |pieces| && 0 <= j < |pieces[i].cells|
      ensures 0 <= pieces[i].cells[j].x < width && 0 <= pieces[i].cells[j].y < height
    {
      assert PieceOk(cells, pieces[i].cells);
    }
    var matrix := BlankMatrix(height, width);
    matrix := FillMatrix(matrix, pieces, height, width);
    r := Some(PuzzleConfiguration(width, height, pieces, matrix, goal));
  }
}
