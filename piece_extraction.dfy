/**
 * Connected-component extraction of `new_from_string`
 * (src/puzzle_configuration.rs:86-124): a row-major scan that starts a worklist
 * flood fill at every cell not yet claimed, blanking claimed cells in a scratch copy.
 */
module PieceExtraction {
  import opened CellPositions
  import opened PuzzleConfigurations

  predicate SameShape(g: Grid, h: Grid)
  {
    |g| == |h| && forall y :: 0 <= y < |g| ==> |g[y]| == |h[y]|
  }

  /** The cells of `g` that still carry a letter. */
  ghost function Lettered(g: Grid): set<CellPosition>
  {
    set y, x | 0 <= y < |g| && 0 <= x < |g[y]| && g[y][x] != Hole :: CellPosition(x, y)
  }

  /** `g` with cell `p` blanked, as line 110 does. */
  function Blank(g: Grid, p: CellPosition): (r: Grid)
    requires InGrid(g, p)
    ensures SameShape(r, g)
    ensures forall q :: InGrid(g, q) ==> At(r, q) == if q == p then Hole else At(g, q)
  {
    g[p.y := g[p.y][p.x := Hole]]
  }

  lemma LetteredMembership(g: Grid, q: CellPosition)
    ensures q in Lettered(g) <==> InGrid(g, q) && At(g, q) != Hole
  {
    if InGrid(g, q) && At(g, q) != Hole {
      assert q == CellPosition(q.x, q.y);
    }
  }

  /** Blanking a lettered cell removes exactly that cell from the lettered ones. */
  lemma BlankShrinksLettered(g: Grid, p: CellPosition)
    requires InGrid(g, p) && At(g, p) != Hole
    ensures Lettered(Blank(g, p)) < Lettered(g)
  {
    var h := Blank(g, p);
    LetteredMembership(g, p);
    LetteredMembership(h, p);
    forall q | q in Lettered(h) ensures q in Lettered(g) {
      LetteredMembership(h, q);
      LetteredMembership(g, q);
    }
  }

  /**
   * The bookkeeping of the extraction: `cells` is `grid` with the claimed cells blanked,
   * and `owner` sends each claimed cell to the one piece that holds it.
   */
  ghost predicate Tracked(grid: Grid, cells: Grid, pieces: seq<Piece>, owner: map<CellPosition, nat>)
  {
    && SameShape(cells, grid)
    && (forall p :: InGrid(grid, p) ==> At(cells, p) == Hole || At(cells, p) == At(grid, p))
    && (forall p :: p in owner <==> InGrid(grid, p) && At(grid, p) != Hole && At(cells, p) == Hole)
    && (forall p :: p in owner ==> owner[p] < |pieces| && p in pieces[owner[p]].cells)
    && (forall i, k :: 0 <= i < |pieces| && 0 <= k < |pieces[i].cells| ==>
          pieces[i].cells[k] in owner && owner[pieces[i].cells[k]] == i)
  }

  /** The pieces numbered below `n` are maximal: a same-letter neighbour has the same owner. */
  ghost predicate Closed(grid: Grid, owner: map<CellPosition, nat>, n: nat)
  {
    forall p, q :: (p in owner && owner[p] < n && InGrid(grid, p) && Adjacent(p, q) &&
      InGrid(grid, q) && At(grid, q) == At(grid, p)) ==> q in owner && owner[q] == owner[p]
  }

  /** Claiming one more lettered cell for the piece under construction keeps the bookkeeping. */
  lemma ClaimKeepsTracked(grid: Grid, cells: Grid, pieces: seq<Piece>, piece: seq<CellPosition>,
                          owner: map<CellPosition, nat>, pos: CellPosition)
    requires Tracked(grid, cells, pieces + [Piece(piece)], owner)
    requires InGrid(grid, pos) && At(cells, pos) != Hole
    ensures pos !in owner && pos !in piece
    ensures Tracked(grid, Blank(cells, pos), pieces + [Piece(piece + [pos])], owner[pos := |pieces|])
  {
    var all, all' := pieces + [Piece(piece)], pieces + [Piece(piece + [pos])];
    var cells', owner' := Blank(cells, pos), owner[pos := |pieces|];
    assert all[|pieces|].cells == piece;
    forall k | 0 <= k < |piece| ensures piece[k] in owner {
      assert all[|pieces|].cells[k] == piece[k];
    }
    forall p | p in owner'
      ensures owner'[p] < |all'| && p in all'[owner'[p]].cells
    {
      if p != pos {
        assert owner'[p] == owner[p];
        if owner[p] < |pieces| {
          assert all'[owner[p]] == all[owner[p]];
        }
      }
    }
    forall i, k | 0 <= i < |all'| && 0 <= k < |all'[i].cells|
      ensures all'[i].cells[k] in owner' && owner'[all'[i].cells[k]] == i
    {
      if i < |pieces| {
        assert all'[i] == all[i];
      } else if k < |piece| {
        assert all'[i].cells[k] == all[i].cells[k];
      }
    }
  }

  /** At the end of a flood fill the new piece is maximal too. */
  lemma FloodEndsClosed(grid: Grid, cells: Grid, pieces: seq<Piece>, piece: seq<CellPosition>,
                        owner: map<CellPosition, nat>, block: int, worklist: seq<CellPosition>)
    requires Tracked(grid, cells, pieces + [Piece(piece)], owner)
    requires Closed(grid, owner, |pieces|)
    requires block != Hole
    requires forall k :: 0 <= k < |piece| ==> InGrid(grid, piece[k]) && At(grid, piece[k]) == block
    requires forall k, q :: 0 <= k < |piece| && Adjacent(piece[k], q) ==> q in worklist
    requires forall j :: 0 <= j < |worklist| ==> !(InGrid(cells, worklist[j]) && At(cells, worklist[j]) == block)
    ensures Closed(grid, owner, |pieces| + 1)
  {
    var all := pieces + [Piece(piece)];
    forall p, q | p in owner && owner[p] < |pieces| + 1 && InGrid(grid, p) && Adjacent(p, q) &&
        InGrid(grid, q) && At(grid, q) == At(grid, p)
      ensures q in owner && owner[q] == owner[p]
    {
      if owner[p] == |pieces| {
        assert p in all[|pieces|].cells;
        var k :| 0 <= k < |piece| && piece[k] == p;
        assert q in worklist;
        var j :| 0 <= j < |worklist| && worklist[j] == q;
        assert At(cells, q) == Hole;
        assert q in owner;
        assert Adjacent(q, p);
      }
    }
  }

  /** The four cells line 111-114 push, in order: left, right, above, below. */
  function Neighbours(p: CellPosition): (r: seq<CellPosition>)
    ensures |r| == 4 && forall j :: 0 <= j < 4 ==> Adjacent(p, r[j])
    ensures forall q :: Adjacent(p, q) ==> q in r
  {
    [CellPosition(p.x - 1, p.y), CellPosition(p.x + 1, p.y), CellPosition(p.x, p.y - 1), CellPosition(p.x, p.y + 1)]
  }

  /** What a flood fill knows from the start: its letter, and that every cell before `start` is blank. */
  ghost predicate FloodFrame(grid: Grid, cells0: Grid, start: CellPosition, block: int)
  {
    && block != Hole && InGrid(grid, start) && At(grid, start) == block
    && SameShape(cells0, grid) && InGrid(cells0, start) && At(cells0, start) == block
    && (forall p :: InGrid(grid, p) && RowMajorBefore(p, start) ==> At(cells0, p) == Hole)
  }

  /** Every entry pushed after the first neighbours a claimed cell, and every neighbour of a claimed cell is pushed. */
  ghost predicate FloodTree(piece: seq<CellPosition>, worklist: seq<CellPosition>, parent: seq<int>)
  {
    && |worklist| > 0 && |parent| == |worklist|
    && (forall j :: 1 <= j < |worklist| ==> 0 <= parent[j] < |piece| && Adjacent(piece[parent[j]], worklist[j]))
    && (forall k, q :: 0 <= k < |piece| && Adjacent(piece[k], q) ==> q in worklist)
  }

  /** The cells claimed so far: distinct, connected, of the letter, none before `start`. */
  ghost predicate FloodPiece(grid: Grid, start: CellPosition, block: int, piece: seq<CellPosition>)
  {
    && NoDuplicates(piece) && Connected(piece)
    && (forall k :: 0 <= k < |piece| ==> InGrid(grid, piece[k]) && At(grid, piece[k]) == block)
    && (forall k :: 0 <= k < |piece| ==> !RowMajorBefore(piece[k], start))
  }

  /** The extraction's bookkeeping with the piece under construction as the last piece. */
  ghost predicate FloodBook(grid: Grid, cells0: Grid, cells: Grid, pieces: seq<Piece>, piece: seq<CellPosition>,
                            owner: map<CellPosition, nat>)
  {
    && Tracked(grid, cells, pieces + [Piece(piece)], owner)
    && SameShape(cells0, grid)
    && (forall p :: InGrid(grid, p) && At(cells0, p) == Hole ==> At(cells, p) == Hole)
    && Closed(grid, owner, |pieces|)
  }

  /** The entries before `checkIndex` are processed: none is a live cell of the letter any more. */
  ghost predicate FloodProgress(cells0: Grid, cells: Grid, start: CellPosition, block: int,
                                piece: seq<CellPosition>, worklist: seq<CellPosition>, checkIndex: nat)
  {
    && 0 <= checkIndex <= |worklist| && |worklist| > 0 && worklist[0] == start
    && (checkIndex == 0 ==> piece == [] && cells == cells0)
    && (checkIndex > 0 ==> |piece| > 0 && piece[0] == start)
    && (forall j :: 0 <= j < checkIndex ==> !(InGrid(cells, worklist[j]) && At(cells, worklist[j]) == block))
  }

  /** The invariant of the flood-fill worklist loop (lines 99-120). */
  ghost predicate FloodInv(grid: Grid, cells0: Grid, pieces: seq<Piece>, start: CellPosition, block: int,
                           cells: Grid, piece: seq<CellPosition>, owner: map<CellPosition, nat>,
                           worklist: seq<CellPosition>, parent: seq<int>, checkIndex: nat)
  {
    && FloodFrame(grid, cells0, start, block)
    && FloodTree(piece, worklist, parent)
    && FloodPiece(grid, start, block, piece)
    && FloodBook(grid, cells0, cells, pieces, piece, owner)
    && FloodProgress(cells0, cells, start, block, piece, worklist, checkIndex)
  }

  lemma FloodBegins(grid: Grid, cells0: Grid, pieces: seq<Piece>, owner0: map<CellPosition, nat>, start: CellPosition)
    requires Tracked(grid, cells0, pieces, owner0)
    requires Closed(grid, owner0, |pieces|)
    requires InGrid(grid, start) && At(cells0, start) != Hole
    requires forall p :: InGrid(grid, p) && RowMajorBefore(p, start) ==> At(cells0, p) == Hole
    ensures InGrid(cells0, start)
    ensures FloodInv(grid, cells0, pieces, start, At(cells0, start), cells0, [], owner0, [start], [0], 0)
  {
    var all := pieces + [Piece([])];
    forall i, k | 0 <= i < |all| && 0 <= k < |all[i].cells|
      ensures all[i].cells[k] in owner0 && owner0[all[i].cells[k]] == i
    {
      assert i < |pieces| && all[i] == pieces[i];
    }
    forall p | p in owner0 ensures owner0[p] < |all| && p in all[owner0[p]].cells {
      assert all[owner0[p]] == pieces[owner0[p]];
    }
  }

  lemma ClaimTree(piece: seq<CellPosition>, worklist: seq<CellPosition>, parent: seq<int>, pos: CellPosition)
    requires FloodTree(piece, worklist, parent)
    ensures FloodTree(piece + [pos], worklist + Neighbours(pos), parent + [|piece|, |piece|, |piece|, |piece|])
  {
    var k := |piece|;
    var piece', worklist', parent' := piece + [pos], worklist + Neighbours(pos), parent + [k, k, k, k];
    forall j | 1 <= j < |worklist'|
      ensures 0 <= parent'[j] < |piece'| && Adjacent(piece'[parent'[j]], worklist'[j])
    {
      if j < |worklist| {
        assert parent'[j] == parent[j] && worklist'[j] == worklist[j];
        assert piece'[parent[j]] == piece[parent[j]];
      } else {
        assert parent'[j] == k && piece'[k] == pos;
        assert worklist'[j] == Neighbours(pos)[j - |worklist|];
      }
    }
    forall k', q | 0 <= k' < |piece'| && Adjacent(piece'[k'], q) ensures q in worklist' {
      if k' < |piece| {
        assert piece'[k'] == piece[k'];
        assert q in worklist;
      } else {
        assert q in Neighbours(pos);
      }
    }
  }

  lemma ClaimPiece(grid: Grid, start: CellPosition, block: int, piece: seq<CellPosition>, pos: CellPosition, pj: int)
    requires FloodPiece(grid, start, block, piece)
    requires pos !in piece && InGrid(grid, pos) && At(grid, pos) == block && !RowMajorBefore(pos, start)
    requires |piece| == 0 || (0 <= pj < |piece| && Adjacent(piece[pj], pos))
    ensures FloodPiece(grid, start, block, piece + [pos])
  {
    var piece' := piece + [pos];
    forall i, j | 0 <= i < j < |piece'| ensures piece'[i] != piece'[j] {
      assert piece'[i] == piece[i] && piece[i] in piece;
      if j < |piece| {
        assert piece'[j] == piece[j];
      }
    }
    forall k2 | 0 < k2 < |piece'| ensures JoinsEarlier(piece', k2) {
      if k2 < |piece| {
        assert JoinsEarlier(piece, k2);
        var j :| 0 <= j < k2 && Adjacent(piece[j], piece[k2]);
        assert piece'[j] == piece[j] && piece'[k2] == piece[k2];
        assert 0 <= j < k2 && Adjacent(piece'[j], piece'[k2]);
      } else {
        assert |piece| > 0 && 0 <= pj < |piece| == k2;
        assert piece'[pj] == piece[pj] && piece'[k2] == pos;
        assert Adjacent(piece'[pj], piece'[k2]);
      }
    }
  }

  lemma ClaimBook(grid: Grid, cells0: Grid, cells: Grid, pieces: seq<Piece>, piece: seq<CellPosition>,
                  owner: map<CellPosition, nat>, pos: CellPosition)
    requires FloodBook(grid, cells0, cells, pieces, piece, owner)
    requires InGrid(grid, pos) && At(cells, pos) != Hole
    ensures pos !in piece && At(grid, pos) == At(cells, pos)
    ensures Lettered(Blank(cells, pos)) < Lettered(cells)
    ensures FloodBook(grid, cells0, Blank(cells, pos), pieces, piece + [pos], owner[pos := |pieces|])
  {
    ClaimKeepsTracked(grid, cells, pieces, piece, owner, pos);
    BlankShrinksLettered(cells, pos);
    var owner' := owner[pos := |pieces|];
    assert Closed(grid, owner', |pieces|) by {
      forall p | p in owner ensures p in owner' && owner'[p] == owner[p] {
      }
    }
  }

  lemma ClaimProgress(cells0: Grid, cells: Grid, start: CellPosition, block: int,
                      piece: seq<CellPosition>, worklist: seq<CellPosition>, checkIndex: nat)
    requires FloodProgress(cells0, cells, start, block, piece, worklist, checkIndex)
    requires checkIndex < |worklist|
    requires InGrid(cells, worklist[checkIndex]) && At(cells, worklist[checkIndex]) == block && block != Hole
    ensures var pos := worklist[checkIndex];
      FloodProgress(cells0, Blank(cells, pos), start, block, piece + [pos], worklist + Neighbours(pos), checkIndex + 1)
  {
    var pos := worklist[checkIndex];
    var cells', worklist' := Blank(cells, pos), worklist + Neighbours(pos);
    forall j | 0 <= j < checkIndex + 1
      ensures !(InGrid(cells', worklist'[j]) && At(cells', worklist'[j]) == block)
    {
      assert worklist'[j] == worklist[j];
    }
  }

  /** Processing a worklist entry that is a live cell of the piece's letter (lines 107-115). */
  lemma FloodClaims(grid: Grid, cells0: Grid, pieces: seq<Piece>, start: CellPosition, block: int,
                    cells: Grid, piece: seq<CellPosition>, owner: map<CellPosition, nat>,
                    worklist: seq<CellPosition>, parent: seq<int>, checkIndex: nat)
    requires FloodInv(grid, cells0, pieces, start, block, cells, piece, owner, worklist, parent, checkIndex)
    requires checkIndex < |worklist|
    requires InGrid(cells, worklist[checkIndex]) && At(cells, worklist[checkIndex]) == block
    ensures var pos := worklist[checkIndex];
      && Lettered(Blank(cells, pos)) < Lettered(cells)
      && FloodInv(grid, cells0, pieces, start, block, Blank(cells, pos), piece + [pos], owner[pos := |pieces|],
                  worklist + Neighbours(pos), parent + [|piece|, |piece|, |piece|, |piece|], checkIndex + 1)
  {
    var pos := worklist[checkIndex];
    assert InGrid(grid, pos);
    ClaimBook(grid, cells0, cells, pieces, piece, owner, pos);
    ClaimTree(piece, worklist, parent, pos);
    ClaimProgress(cells0, cells, start, block, piece, worklist, checkIndex);
    assert At(cells0, pos) != Hole;
    var pj := if checkIndex > 0 then parent[checkIndex] else 0;
    ClaimPiece(grid, start, block, piece, pos, pj);
  }

  /** Processing a worklist entry that is out of the grid, blank or of another letter. */
  lemma FloodSkips(grid: Grid, cells0: Grid, pieces: seq<Piece>, start: CellPosition, block: int,
                   cells: Grid, piece: seq<CellPosition>, owner: map<CellPosition, nat>,
                   worklist: seq<CellPosition>, parent: seq<int>, checkIndex: nat)
    requires FloodInv(grid, cells0, pieces, start, block, cells, piece, owner, worklist, parent, checkIndex)
    requires checkIndex < |worklist|
    requires !(InGrid(cells, worklist[checkIndex]) && At(cells, worklist[checkIndex]) == block)
    ensures FloodInv(grid, cells0, pieces, start, block, cells, piece, owner, worklist, parent, checkIndex + 1)
  {
    assert FloodProgress(cells0, cells, start, block, piece, worklist, checkIndex + 1);
  }

  /** When the worklist is exhausted the piece is complete and maximal. */
  lemma FloodEnds(grid: Grid, cells0: Grid, pieces: seq<Piece>, start: CellPosition, block: int,
                 cells: Grid, piece: seq<CellPosition>, owner: map<CellPosition, nat>,
                 worklist: seq<CellPosition>, parent: seq<int>)
    requires FloodInv(grid, cells0, pieces, start, block, cells, piece, owner, worklist, parent, |worklist|)
    ensures Tracked(grid, cells, pieces + [Piece(piece)], owner)
    ensures Closed(grid, owner, |pieces| + 1)
    ensures PieceOk(grid, piece) && piece[0] == start
    ensures forall p :: InGrid(grid, p) && At(cells0, p) == Hole ==> At(cells, p) == Hole
    ensures InGrid(cells, start) && At(cells, start) == Hole
  {
    FloodEndsClosed(grid, cells, pieces, piece, owner, block, worklist);
    assert !(InGrid(cells, worklist[0]) && At(cells, worklist[0]) == block);
  }

  /**
   * The flood fill started at `start` (lines 91-122): claims the 4-connected cells that
   * carry the letter of `start` and are still unclaimed, and returns them as a piece.
   */
  method FloodFill(grid: Grid, cells0: Grid, ghost pieces: seq<Piece>, ghost owner0: map<CellPosition, nat>,
                   start: CellPosition)
    returns (cells: Grid, piece: seq<CellPosition>, ghost owner: map<CellPosition, nat>)
    requires Tracked(grid, cells0, pieces, owner0)
    requires Closed(grid, owner0, |pieces|)
    requires InGrid(grid, start) && At(cells0, start) != Hole
    requires forall p :: InGrid(grid, p) && RowMajorBefore(p, start) ==> At(cells0, p) == Hole
    ensures Tracked(grid, cells, pieces + [Piece(piece)], owner)
    ensures Closed(grid, owner, |pieces| + 1)
    ensures PieceOk(grid, piece) && piece[0] == start
    ensures forall p :: InGrid(grid, p) && At(cells0, p) == Hole ==> At(cells, p) == Hole
    ensures InGrid(cells, start) && At(cells, start) == Hole
  {
    FloodBegins(grid, cells0, pieces, owner0, start);
    var block := cells0[start.y][start.x];
    cells := cells0;
    piece := [];
    owner := owner0;
    var blocksToCheck := [start];
    ghost var parent: seq<int> := [0];
    var checkIndex := 0;
    while checkIndex < |blocksToCheck|
      invariant 0 <= checkIndex <= |blocksToCheck|
      invariant FloodInv(grid, cells0, pieces, start, block, cells, piece, owner, blocksToCheck, parent, checkIndex)
      decreases Lettered(cells), |blocksToCheck| - checkIndex
    {
      var pos := blocksToCheck[checkIndex];
      if pos.y >= 0 && pos.y < |cells| && pos.x >= 0 && pos.x < |cells[pos.y]| && cells[pos.y][pos.x] == block {
        FloodClaims(grid, cells0, pieces, start, block, cells, piece, owner, blocksToCheck, parent, checkIndex);
        parent := parent + [|piece|, |piece|, |piece|, |piece|];
        piece := piece + [pos];
        cells := Blank(cells, pos);
        owner := owner[pos := |pieces|];
        blocksToCheck := blocksToCheck + Neighbours(pos);
      } else {
        FloodSkips(grid, cells0, pieces, start, block, cells, piece, owner, blocksToCheck, parent, checkIndex);
      }
      checkIndex := checkIndex + 1;
    }
    FloodEnds(grid, cells0, pieces, start, block, cells, piece, owner, blocksToCheck, parent);
  }

  /** Every piece's first cell comes before `next` in scan order, and first cells are in scan order. */
  ghost predicate StartsOrdered(pieces: seq<Piece>, next: CellPosition)
  {
    && (forall i :: 0 <= i < |pieces| ==> |pieces[i].cells| > 0 && RowMajorBefore(pieces[i].cells[0], next))
    && (forall i, j :: 0 <= i < j < |pieces| && |pieces[i].cells| > 0 && |pieces[j].cells| > 0 ==>
          RowMajorBefore(pieces[i].cells[0], pieces[j].cells[0]))
  }

  /** The pieces found so far: well formed, maximal, and owning exactly the blanked cells. */
  ghost predicate ExtractBook(grid: Grid, cells: Grid, pieces: seq<Piece>, owner: map<CellPosition, nat>)
  {
    && Tracked(grid, cells, pieces, owner)
    && Closed(grid, owner, |pieces|)
    && (forall i :: 0 <= i < |pieces| ==> PieceOk(grid, pieces[i].cells))
  }

  /** Every cell before `next` is claimed or blank, and the pieces were started before `next`, in order. */
  ghost predicate ExtractFront(grid: Grid, cells: Grid, pieces: seq<Piece>, next: CellPosition)
  {
    && SameShape(cells, grid)
    && (forall p :: InGrid(grid, p) && RowMajorBefore(p, next) ==> At(cells, p) == Hole)
    && StartsOrdered(pieces, next)
  }

  /** At an unclaimed lettered cell, the scan state meets what a flood fill needs. */
  lemma FloodMayStart(grid: Grid, cells: Grid, pieces: seq<Piece>, owner: map<CellPosition, nat>, column: int, row: int)
    requires ExtractBook(grid, cells, pieces, owner)
    requires ExtractFront(grid, cells, pieces, CellPosition(column, row))
    requires InGrid(cells, CellPosition(column, row)) && At(cells, CellPosition(column, row)) != Hole
    ensures Tracked(grid, cells, pieces, owner) && Closed(grid, owner, |pieces|)
    ensures InGrid(grid, CellPosition(column, row)) && At(cells, CellPosition(column, row)) != Hole
    ensures forall p :: InGrid(grid, p) && RowMajorBefore(p, CellPosition(column, row)) ==> At(cells, p) == Hole
    ensures forall i :: 0 <= i < |pieces| ==> PieceOk(grid, pieces[i].cells)
  {
  }

  lemma BookAfterFlood(grid: Grid, pieces: seq<Piece>, cells': Grid, piece: seq<CellPosition>,
                       owner': map<CellPosition, nat>)
    requires forall i :: 0 <= i < |pieces| ==> PieceOk(grid, pieces[i].cells)
    requires Tracked(grid, cells', pieces + [Piece(piece)], owner')
    requires Closed(grid, owner', |pieces| + 1)
    requires PieceOk(grid, piece)
    ensures ExtractBook(grid, cells', pieces + [Piece(piece)], owner')
  {
    var all := pieces + [Piece(piece)];
    forall i | 0 <= i < |all| ensures PieceOk(grid, all[i].cells) {
      if i < |pieces| { assert all[i] == pieces[i]; }
    }
  }

  lemma FrontAfterFlood(grid: Grid, cells: Grid, pieces: seq<Piece>, column: int, row: int, cells': Grid,
                        piece: seq<CellPosition>)
    requires ExtractFront(grid, cells, pieces, CellPosition(column, row))
    requires SameShape(cells', grid)
    requires |piece| > 0 && piece[0] == CellPosition(column, row)
    requires forall p :: InGrid(grid, p) && At(cells, p) == Hole ==> At(cells', p) == Hole
    requires InGrid(cells', CellPosition(column, row)) && At(cells', CellPosition(column, row)) == Hole
    ensures ExtractFront(grid, cells', pieces + [Piece(piece)], CellPosition(column + 1, row))
  {
    var all, next := pieces + [Piece(piece)], CellPosition(column + 1, row);
    forall i | 0 <= i < |all| ensures |all[i].cells| > 0 && RowMajorBefore(all[i].cells[0], next) {
      if i < |pieces| { assert all[i] == pieces[i]; }
    }
    forall i, j | 0 <= i < j < |all| && |all[i].cells| > 0 && |all[j].cells| > 0
      ensures RowMajorBefore(all[i].cells[0], all[j].cells[0])
    {
      assert all[i] == pieces[i];
      if j < |pieces| { assert all[j] == pieces[j]; }
    }
  }

  lemma FrontSkipsBlank(grid: Grid, cells: Grid, pieces: seq<Piece>, column: int, row: int)
    requires ExtractFront(grid, cells, pieces, CellPosition(column, row))
    requires InGrid(cells, CellPosition(column, row)) && At(cells, CellPosition(column, row)) == Hole
    ensures ExtractFront(grid, cells, pieces, CellPosition(column + 1, row))
  {
  }

  lemma FrontNextRow(grid: Grid, cells: Grid, pieces: seq<Piece>, row: int)
    requires 0 <= row < |grid|
    requires ExtractFront(grid, cells, pieces, CellPosition(|grid[row]|, row))
    ensures ExtractFront(grid, cells, pieces, CellPosition(0, row + 1))
  {
  }

  /** Once the scan has passed every row, every lettered cell belongs to a piece. */
  lemma ExtractCovers(grid: Grid, cells: Grid, pieces: seq<Piece>, owner: map<CellPosition, nat>)
    requires Tracked(grid, cells, pieces, owner)
    requires ExtractFront(grid, cells, pieces, CellPosition(0, |grid|))
    ensures forall p :: InGrid(grid, p) && At(grid, p) != Hole ==>
      exists i :: 0 <= i < |pieces| && p in pieces[i].cells
  {
    forall p | InGrid(grid, p) && At(grid, p) != Hole
      ensures exists i :: 0 <= i < |pieces| && p in pieces[i].cells
    {
      assert RowMajorBefore(p, CellPosition(0, |grid|));
      assert p in owner;
    }
  }

  lemma TrackedDisjoint(grid: Grid, cells: Grid, pieces: seq<Piece>, owner: map<CellPosition, nat>)
    requires Tracked(grid, cells, pieces, owner)
    ensures forall i, j, p :: (0 <= i < |pieces| && 0 <= j < |pieces| &&
      p in pieces[i].cells && p in pieces[j].cells) ==> i == j
  {
    forall i, j, p | 0 <= i < |pieces| && 0 <= j < |pieces| && p in pieces[i].cells && p in pieces[j].cells
      ensures i == j
    {
      var ki :| 0 <= ki < |pieces[i].cells| && pieces[i].cells[ki] == p;
      var kj :| 0 <= kj < |pieces[j].cells| && pieces[j].cells[kj] == p;
    }
  }

  lemma TrackedMaximal(grid: Grid, cells: Grid, pieces: seq<Piece>, owner: map<CellPosition, nat>)
    requires Tracked(grid, cells, pieces, owner)
    requires Closed(grid, owner, |pieces|)
    ensures forall i, p, q :: (0 <= i < |pieces| && p in pieces[i].cells && InGrid(grid, p) && Adjacent(p, q) &&
      InGrid(grid, q) && At(grid, q) == At(grid, p)) ==> q in pieces[i].cells
  {
    forall i, p, q | 0 <= i < |pieces| && p in pieces[i].cells && InGrid(grid, p) && Adjacent(p, q) &&
        InGrid(grid, q) && At(grid, q) == At(grid, p)
      ensures q in pieces[i].cells
    {
      var k :| 0 <= k < |pieces[i].cells| && pieces[i].cells[k] == p;
      assert owner[p] == i;
    }
  }

  /**
   * One row of the scan (lines 88-123): starts a flood fill at every cell of row `row`
   * that no earlier flood fill claimed.
   */
  method ExtractRow(grid: Grid, cells0: Grid, pieces0: seq<Piece>, ghost owner0: map<CellPosition, nat>, row: int)
    returns (cells: Grid, pieces: seq<Piece>, ghost owner: map<CellPosition, nat>)
    requires 0 <= row < |grid|
    requires ExtractBook(grid, cells0, pieces0, owner0)
    requires ExtractFront(grid, cells0, pieces0, CellPosition(0, row))
    ensures ExtractBook(grid, cells, pieces, owner)
    ensures ExtractFront(grid, cells, pieces, CellPosition(0, row + 1))
  {
    cells, pieces, owner := cells0, pieces0, owner0;
    var column := 0;
    while column < |cells[row]|
      invariant SameShape(cells, grid) && 0 <= column <= |cells[row]|
      invariant ExtractBook(grid, cells, pieces, owner)
      invariant ExtractFront(grid, cells, pieces, CellPosition(column, row))
    {
      var blockCurrent := cells[row][column];
      if blockCurrent != Hole {
        var piece;
        ghost var cellsBefore := cells;
        FloodMayStart(grid, cells, pieces, owner, column, row);
        cells, piece, owner := FloodFill(grid, cells, pieces, owner, CellPosition(column, row));
        BookAfterFlood(grid, pieces, cells, piece, owner);
        FrontAfterFlood(grid, cellsBefore, pieces, column, row, cells, piece);
        pieces := pieces + [Piece(piece)];
      } else {
        FrontSkipsBlank(grid, cells, pieces, column, row);
      }
      column := column + 1;
    }
    FrontNextRow(grid, cells, pieces, row);
  }

  /**
   * `pieces` are the pieces of `grid`: they partition its lettered cells, each is a
   * connected, maximal same-letter group whose first cell is its earliest in scan
   * order, and pieces are numbered in scan order of their first cells.
   */
  ghost predicate PiecesOf(grid: Grid, pieces: seq<Piece>)
  {
    && (forall i :: 0 <= i < |pieces| ==> PieceOk(grid, pieces[i].cells))
    && (forall p :: InGrid(grid, p) && At(grid, p) != Hole ==>
          exists i :: 0 <= i < |pieces| && p in pieces[i].cells)
    && (forall i, j, p :: (0 <= i < |pieces| && 0 <= j < |pieces| &&
          p in pieces[i].cells && p in pieces[j].cells) ==> i == j)
    && (forall i, p, q :: (0 <= i < |pieces| && p in pieces[i].cells && InGrid(grid, p) && Adjacent(p, q) &&
          InGrid(grid, q) && At(grid, q) == At(grid, p)) ==> q in pieces[i].cells)
    && (forall i, j :: 0 <= i < j < |pieces| ==>
          |pieces[i].cells| > 0 && |pieces[j].cells| > 0 && RowMajorBefore(pieces[i].cells[0], pieces[j].cells[0]))
  }

  /** Lines 86-124: the pieces of `grid`, found by a row-major scan of flood fills. */
  method FindPieces(grid: Grid) returns (pieces: seq<Piece>)
    ensures PiecesOf(grid, pieces)
  {
    var cells := grid;
    pieces := [];
    ghost var owner: map<CellPosition, nat> := map[];
    var row := 0;
    while row < |cells|
      invariant SameShape(cells, grid) && 0 <= row <= |cells|
      invariant ExtractBook(grid, cells, pieces, owner)
      invariant ExtractFront(grid, cells, pieces, CellPosition(0, row))
    {
      cells, pieces, owner := ExtractRow(grid, cells, pieces, owner, row);
      row := row + 1;
    }
    ExtractCovers(grid, cells, pieces, owner);
    TrackedDisjoint(grid, cells, pieces, owner);
    TrackedMaximal(grid, cells, pieces, owner);
  }
}
