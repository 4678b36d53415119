/**
 * The parsed puzzle (src/puzzle_configuration.rs): its pieces, the cell-to-piece
 * matrix, and the grid vocabulary the parser and the solver share.
 */
module PuzzleConfigurations {
  import opened CellPositions

  /** One maximal 4-connected group of same-letter cells, in discovery order. */
  datatype Piece = Piece(cells: seq<CellPosition>)

  /** The immutable result of parsing; `cellToPieceMatrix[y][x]` is a piece index or -1. */
  datatype PuzzleConfiguration = PuzzleConfiguration(
    width: int,
    height: int,
    pieces: seq<Piece>,
    cellToPieceMatrix: seq<seq<int>>,
    goal: CellPosition)

  /** Rows of colour codes as scanned: 0..25 for 'A'..'Z', -1 for a hole; rows may differ in length. */
  type Grid = seq<seq<int>>

  const Hole: int := -1

  predicate InGrid(g: Grid, p: CellPosition)
  {
    0 <= p.y < |g| && 0 <= p.x < |g[p.y]|
  }

  function At(g: Grid, p: CellPosition): int
    requires InGrid(g, p)
  {
    g[p.y][p.x]
  }

  /** `p` and `q` are 4-neighbours. */
  predicate Adjacent(p: CellPosition, q: CellPosition)
  {
    (p.x == q.x && (p.y == q.y + 1 || q.y == p.y + 1)) ||
    (p.y == q.y && (p.x == q.x + 1 || q.x == p.x + 1))
  }

  /** `p` comes strictly before `q` in a row-by-row, left-to-right scan. */
  predicate RowMajorBefore(p: CellPosition, q: CellPosition)
  {
    p.y < q.y || (p.y == q.y && p.x < q.x)
  }

  predicate NoDuplicates<T(==)>(s: seq<T>)
  {
    forall i, j :: 0 <= i < j < |s| ==> s[i] != s[j]
  }

  /** Cell `k` is a 4-neighbour of a cell listed before it. */
  predicate JoinsEarlier(cells: seq<CellPosition>, k: int)
    requires 0 <= k < |cells|
  {
    exists j :: 0 <= j < k && Adjacent(cells[j], cells[k])
  }

  /** Every cell after the first is a 4-neighbour of an earlier one. */
  predicate Connected(cells: seq<CellPosition>)
  {
    forall k :: 0 < k < |cells| ==> JoinsEarlier(cells, k)
  }

  /**
   * A well-formed piece of grid `g`: non-empty, duplicate-free, every cell carries the
   * letter of the first one, connected, and the first cell is its earliest in scan order.
   */
  predicate PieceOk(g: Grid, cells: seq<CellPosition>)
  {
    && |cells| > 0
    && NoDuplicates(cells)
    && InGrid(g, cells[0]) && At(g, cells[0]) != Hole
    && (forall k :: 0 <= k < |cells| ==> InGrid(g, cells[k]) && At(g, cells[k]) == At(g, cells[0]))
    && Connected(cells)
    && (forall k :: 0 <= k < |cells| ==> !RowMajorBefore(cells[k], cells[0]))
  }

  predicate InMatrix(c: PuzzleConfiguration, p: CellPosition)
  {
    0 <= p.x < c.width && 0 <= p.y < c.height
  }

  /** `m` is `height` rows of `width` entries, each a piece index below `n` or -1. */
  predicate MatrixShaped(m: seq<seq<int>>, width: int, height: int, n: int)
  {
    && |m| == height
    && (forall y :: 0 <= y < height ==> |m[y]| == width)
    && (forall y, x :: 0 <= y < height && 0 <= x < width ==> Hole <= m[y][x] < n)
  }

  /** Entry `(x, y)` of `m` is `i` exactly when piece `i` holds `(x, y)`. */
  predicate MatrixIndexes(m: seq<seq<int>>, width: int, height: int, pieces: seq<Piece>)
    requires MatrixShaped(m, width, height, |pieces|)
  {
    && (forall i, k :: 0 <= i < |pieces| && 0 <= k < |pieces[i].cells| ==>
          0 <= pieces[i].cells[k].x < width && 0 <= pieces[i].cells[k].y < height &&
          m[pieces[i].cells[k].y][pieces[i].cells[k].x] == i)
    && (forall y, x :: 0 <= y < height && 0 <= x < width && m[y][x] != Hole ==>
          CellPosition(x, y) in pieces[m[y][x]].cells)
  }

  /** The matrix is `height` (at least 1) rows of `width` entries, each a piece index or -1. */
  predicate ValidConfiguration(c: PuzzleConfiguration)
  {
    && c.height >= 1 && c.width >= 0
    && MatrixShaped(c.cellToPieceMatrix, c.width, c.height, |c.pieces|)
  }

  /** Entry `(x, y)` of the matrix is `i` exactly when piece `i` holds `(x, y)`. */
  predicate MatrixAgreesWithPieces(c: PuzzleConfiguration)
    requires ValidConfiguration(c)
  {
    MatrixIndexes(c.cellToPieceMatrix, c.width, c.height, c.pieces)
  }

  /** In an agreeing matrix, no cell belongs to two pieces. */
  lemma AgreeingPiecesAreDisjoint(c: PuzzleConfiguration, i: int, j: int, p: CellPosition)
    requires ValidConfiguration(c) && MatrixAgreesWithPieces(c)
    requires 0 <= i < |c.pieces| && 0 <= j < |c.pieces|
    requires p in c.pieces[i].cells && p in c.pieces[j].cells
    ensures i == j
  {
    var ki :| 0 <= ki < |c.pieces[i].cells| && c.pieces[i].cells[ki] == p;
    var kj :| 0 <= kj < |c.pieces[j].cells| && c.pieces[j].cells[kj] == p;
  }
}
