/** `Solver.java`: enumerate every legal placement of every piece, build the
    exact-cover matrix (one column per fillable cell, one per piece that has a
    placement) and map the chosen rows back to placements. */
module Solvers {
  import opened Results
  import opened Cells
  import opened Boards
  import opened Pieces
  import opened Placements
  import ExactCover

  // ---- placement generation ----------------------------------------------

  /** Every cell of `shape`, moved by (r0, c0), is fillable on `b`. */
  predicate Fits(b: Board, shape: seq<Cell>, r0: int, c0: int) {
    forall i :: 0 <= i < |shape| ==> IsFillable(b, r0 + shape[i].row, c0 + shape[i].col)
  }

  lemma FitsCons(b: Board, shape: seq<Cell>, r0: int, c0: int)
    requires |shape| > 0
    ensures Fits(b, shape, r0, c0) <==>
      IsFillable(b, r0 + shape[0].row, c0 + shape[0].col) && Fits(b, shape[1..], r0, c0)
  {
    if Fits(b, shape[1..], r0, c0) && IsFillable(b, r0 + shape[0].row, c0 + shape[0].col) {
      forall i | 0 < i < |shape| ensures IsFillable(b, r0 + shape[i].row, c0 + shape[i].col) {
        assert shape[i] == shape[1..][i - 1];
      }
    }
  }

  lemma TranslateCons(shape: seq<Cell>, r0: int, c0: int)
    requires |shape| > 0
    ensures Translate(shape, r0, c0) == [Cell(r0 + shape[0].row, c0 + shape[0].col)] + Translate(shape[1..], r0, c0)
  {
  }

  /** The innermost loop of `generateAllPlacements`: the absolute cells of the
      shape at (r0, c0), abandoned at the first unfillable one. */
  function AbsCells(b: Board, shape: seq<Cell>, r0: int, c0: int): (res: Option<seq<Cell>>)
    ensures res.Some? <==> Fits(b, shape, r0, c0)
    ensures res.Some? ==> res.value == Translate(shape, r0, c0)
    decreases |shape|
  {
    if |shape| == 0 then Some([])
    else
      FitsCons(b, shape, r0, c0);
      TranslateCons(shape, r0, c0);
      var rr := r0 + shape[0].row;
      var cc := c0 + shape[0].col;
      if !IsFillable(b, rr, cc) then None
      else
        match AbsCells(b, shape[1..], r0, c0)
        case None => None
        case Some(rest) => Some([Cell(rr, cc)] + rest)
  }

  /** The `c0` loop for one orientation and anchor row. */
  function AnchorCols(b: Board, id: string, o: nat, shape: seq<Cell>, r0: nat, c0: nat): seq<Placement>
    decreases b.cols - MaxCol(shape) - c0
  {
    if c0 + MaxCol(shape) >= b.cols then []
    else
      PlacementAt(b, id, o, shape, r0, c0) + AnchorCols(b, id, o, shape, r0, c0 + 1)
  }

  /** The placement at anchor (r0, c0), if every cell there is fillable. */
  function PlacementAt(b: Board, id: string, o: nat, shape: seq<Cell>, r0: nat, c0: nat): seq<Placement> {
    match AbsCells(b, shape, r0, c0)
    case Some(cells) => [Placement(id, o, r0, c0, cells)]
    case None => []
  }

  /** The `r0` loop for one orientation. */
  function AnchorRows(b: Board, id: string, o: nat, shape: seq<Cell>, r0: nat): seq<Placement>
    decreases b.rows - MaxRow(shape) - r0
  {
    if r0 + MaxRow(shape) >= b.rows then []
    else AnchorCols(b, id, o, shape, r0, 0) + AnchorRows(b, id, o, shape, r0 + 1)
  }

  /** The orientation loop for one piece, from index `o` on. */
  function OrientationPlacements(b: Board, id: string, os: seq<seq<Cell>>, o: nat): seq<Placement>
    decreases |os| - o
  {
    if o >= |os| then []
    else AnchorRows(b, id, o, os[o], 0) + OrientationPlacements(b, id, os, o + 1)
  }

  /** Java `generateAllPlacements()`: pieces, then orientations, then anchor row,
      then anchor column. */
  function GenerateAllPlacements(b: Board, pieces: seq<Piece>): seq<Placement>
    decreases |pieces|
  {
    if |pieces| == 0 then []
    else OrientationPlacements(b, pieces[0].id, Orientations(pieces[0]), 0) + GenerateAllPlacements(b, pieces[1..])
  }

  /** `pl` is the placement of `shape` (orientation `o` of piece `id`) at its
      anchor: the bounding box fits the grid, every cell is fillable, and the
      covered cells are anchor + offsets in the shape's order. */
  ghost predicate LegalFor(b: Board, id: string, o: nat, shape: seq<Cell>, pl: Placement) {
    pl.pieceId == id && pl.orientationIdx == o
    && 0 <= pl.anchorRow && pl.anchorRow + MaxRow(shape) < b.rows
    && 0 <= pl.anchorCol && pl.anchorCol + MaxCol(shape) < b.cols
    && Fits(b, shape, pl.anchorRow, pl.anchorCol)
    && pl.covered == Translate(shape, pl.anchorRow, pl.anchorCol)
  }

  /** `pl` places some orientation of one of the pieces legally. */
  ghost predicate Legal(b: Board, pieces: seq<Piece>, pl: Placement) {
    exists k :: 0 <= k < |pieces| && pieces[k].id == pl.pieceId
      && 0 <= pl.orientationIdx < |Orientations(pieces[k])|
      && LegalFor(b, pieces[k].id, pl.orientationIdx, Orientations(pieces[k])[pl.orientationIdx], pl)
  }

  lemma {:induction false} AnchorColsSpec(b: Board, id: string, o: nat, shape: seq<Cell>, r0: nat, c0: nat, pl: Placement)
    requires r0 + MaxRow(shape) < b.rows
    ensures pl in AnchorCols(b, id, o, shape, r0, c0) <==>
      LegalFor(b, id, o, shape, pl) && pl.anchorRow == r0 && pl.anchorCol >= c0
    decreases b.cols - MaxCol(shape) - c0
  {
    if c0 + MaxCol(shape) < b.cols {
      AnchorColsStep(b, id, o, shape, r0, c0, pl);
      AnchorColsSpec(b, id, o, shape, r0, c0 + 1, pl);
      PlacementAtSpec(b, id, o, shape, r0, c0, pl);
    } else {
      AnchorColsEnd(b, id, o, shape, r0, c0, pl);
    }
  }

  /** Past the last column that fits, the loop yields nothing and nothing legal is left. */
  lemma AnchorColsEnd(b: Board, id: string, o: nat, shape: seq<Cell>, r0: nat, c0: nat, pl: Placement)
    requires c0 + MaxCol(shape) >= b.cols
    ensures AnchorCols(b, id, o, shape, r0, c0) == []
    ensures !(LegalFor(b, id, o, shape, pl) && pl.anchorCol >= c0)
  {
  }

  /** One step of the column loop: the anchor (r0, c0), then the columns after it. */
  lemma AnchorColsStep(b: Board, id: string, o: nat, shape: seq<Cell>, r0: nat, c0: nat, pl: Placement)
    requires c0 + MaxCol(shape) < b.cols
    ensures pl in AnchorCols(b, id, o, shape, r0, c0) <==>
      pl in PlacementAt(b, id, o, shape, r0, c0) || pl in AnchorCols(b, id, o, shape, r0, c0 + 1)
  {
    var here := PlacementAt(b, id, o, shape, r0, c0);
    var later := AnchorCols(b, id, o, shape, r0, c0 + 1);
    assert AnchorCols(b, id, o, shape, r0, c0) == here + later;
    assert pl in here + later <==> pl in here || pl in later;
  }

  /** The anchor (r0, c0) yields exactly the legal placement anchored there. */
  lemma PlacementAtSpec(b: Board, id: string, o: nat, shape: seq<Cell>, r0: nat, c0: nat, pl: Placement)
    requires r0 + MaxRow(shape) < b.rows && c0 + MaxCol(shape) < b.cols
    ensures pl in PlacementAt(b, id, o, shape, r0, c0) <==>
      LegalFor(b, id, o, shape, pl) && pl.anchorRow == r0 && pl.anchorCol == c0
  {
    if LegalFor(b, id, o, shape, pl) && pl.anchorRow == r0 && pl.anchorCol == c0 {
      assert pl == Placement(id, o, r0, c0, Translate(shape, r0, c0));
    }
  }

  lemma {:induction false} AnchorRowsSpec(b: Board, id: string, o: nat, shape: seq<Cell>, r0: nat, pl: Placement)
    ensures pl in AnchorRows(b, id, o, shape, r0) <==> LegalFor(b, id, o, shape, pl) && pl.anchorRow >= r0
    decreases b.rows - MaxRow(shape) - r0
  {
    if r0 + MaxRow(shape) < b.rows {
      AnchorColsSpec(b, id, o, shape, r0, 0, pl);
      AnchorRowsSpec(b, id, o, shape, r0 + 1, pl);
    }
  }

  lemma {:induction false} OrientationPlacementsSpec(b: Board, id: string, os: seq<seq<Cell>>, o: nat, pl: Placement)
    ensures pl in OrientationPlacements(b, id, os, o) <==>
      o <= pl.orientationIdx < |os| && LegalFor(b, id, pl.orientationIdx, os[pl.orientationIdx], pl)
    decreases |os| - o
  {
    if o < |os| {
      AnchorRowsSpec(b, id, o, os[o], 0, pl);
      OrientationPlacementsSpec(b, id, os, o + 1, pl);
      var here := AnchorRows(b, id, o, os[o], 0);
      var later := OrientationPlacements(b, id, os, o + 1);
      assert OrientationPlacements(b, id, os, o) == here + later;
      assert pl in here + later <==> pl in here || pl in later;
      assert pl in here ==> pl.orientationIdx == o;
    }
  }

  /** Completeness of `generateAllPlacements`, both ways: a placement is emitted
      exactly when it puts some orientation of some piece at an anchor whose
      bounding box fits the grid and whose cells are all fillable. */
  lemma {:induction false} GenerateAllPlacementsSpec(b: Board, pieces: seq<Piece>, pl: Placement)
    ensures pl in GenerateAllPlacements(b, pieces) <==> Legal(b, pieces, pl)
    decreases |pieces|
  {
    if |pieces| > 0 {
      var p := pieces[0];
      OrientationPlacementsSpec(b, p.id, Orientations(p), 0, pl);
      GenerateAllPlacementsSpec(b, pieces[1..], pl);
      if Legal(b, pieces[1..], pl) {
        var k :| 0 <= k < |pieces[1..]| && pieces[1..][k].id == pl.pieceId
          && 0 <= pl.orientationIdx < |Orientations(pieces[1..][k])|
          && LegalFor(b, pieces[1..][k].id, pl.orientationIdx, Orientations(pieces[1..][k])[pl.orientationIdx], pl);
        assert pieces[k + 1] == pieces[1..][k];
      }
      if Legal(b, pieces, pl) {
        var k :| 0 <= k < |pieces| && pieces[k].id == pl.pieceId
          && 0 <= pl.orientationIdx < |Orientations(pieces[k])|
          && LegalFor(b, pieces[k].id, pl.orientationIdx, Orientations(pieces[k])[pl.orientationIdx], pl);
        if k > 0 {
          assert pieces[1..][k - 1] == pieces[k];
        }
      }
    }
  }

  /** A legally placed shape covers fillable cells only, one per shape cell. */
  lemma LegalForCells(b: Board, id: string, o: nat, shape: seq<Cell>, pl: Placement)
    requires LegalFor(b, id, o, shape, pl)
    ensures |pl.covered| == |shape|
    ensures forall x :: x in pl.covered ==> IsFillable(b, x.row, x.col)
  {
    forall x | x in pl.covered ensures IsFillable(b, x.row, x.col) {
      var i :| 0 <= i < |pl.covered| && pl.covered[i] == x;
      assert x == Cell(pl.anchorRow + shape[i].row, pl.anchorCol + shape[i].col);
    }
  }

  /** Each generated placement covers fillable cells only. */
  lemma GeneratedPlacementCells(b: Board, pieces: seq<Piece>, pl: Placement)
    requires pl in GenerateAllPlacements(b, pieces)
    ensures forall x :: x in pl.covered ==> IsFillable(b, x.row, x.col)
  {
    GenerateAllPlacementsSpec(b, pieces, pl);
    var k :| 0 <= k < |pieces| && pieces[k].id == pl.pieceId
      && 0 <= pl.orientationIdx < |Orientations(pieces[k])|
      && LegalFor(b, pieces[k].id, pl.orientationIdx, Orientations(pieces[k])[pl.orientationIdx], pl);
    LegalForCells(b, pieces[k].id, pl.orientationIdx, Orientations(pieces[k])[pl.orientationIdx], pl);
  }

  // ---- the exact-cover matrix -------------------------------------------

  /** Distinct piece ids in order of first appearance, continuing after `seen`. */
  function DistinctFrom(pls: seq<Placement>, seen: seq<string>): (ids: seq<string>)
    ensures forall x :: x in ids <==> x in seen || exists pl :: pl in pls && pl.pieceId == x
    ensures NoRepeats(seen) ==> NoRepeats(ids)
    decreases |pls|
  {
    if |pls| == 0 then seen
    else
      var next := if pls[0].pieceId in seen then seen else seen + [pls[0].pieceId];
      assert forall pl :: pl in pls <==> pl == pls[0] || pl in pls[1..] by {
        assert pls == [pls[0]] + pls[1..];
      }
      DistinctFrom(pls[1..], next)
  }

  /** The piece ids of the placements, each once, in order of first appearance. */
  function PieceIds(pls: seq<Placement>): (ids: seq<string>)
    ensures forall x :: x in ids <==> exists pl :: pl in pls && pl.pieceId == x
    ensures NoRepeats(ids)
  {
    DistinctFrom(pls, [])
  }

  /** A list without repeats. */
  predicate NoRepeats<T(==)>(s: seq<T>) {
    forall i, j :: 0 <= i < j < |s| ==> s[i] != s[j]
  }

  /** The position of `x` in `s` (`cellToIndex` / `pieceToCol`). */
  function IndexIn<T(==)>(s: seq<T>, x: T): (k: nat)
    requires x in s
    ensures k < |s| && s[k] == x
  {
    if s[0] == x then 0 else 1 + IndexIn(s[1..], x)
  }

  /** Marks, in `row`, the column of every covered cell. */
  function MarkCells(row: seq<bool>, fill: seq<Cell>, cells: seq<Cell>): (res: seq<bool>)
    requires |fill| <= |row| && NoRepeats(fill)
    requires forall i :: 0 <= i < |cells| ==> cells[i] in fill
    ensures |res| == |row|
    ensures forall j :: 0 <= j < |row| ==> (res[j] <==> row[j] || (j < |fill| && fill[j] in cells))
    decreases |cells|
  {
    if |cells| == 0 then row
    else
      var j0 := IndexIn(fill, cells[0]);
      var res := MarkCells(row[j0 := true], fill, cells[1..]);
      assert forall j :: 0 <= j < |fill| ==> (fill[j] in cells <==> fill[j] == cells[0] || fill[j] in cells[1..]) by {
        forall j | 0 <= j < |fill| ensures fill[j] in cells <==> fill[j] == cells[0] || fill[j] in cells[1..] {
          assert cells == [cells[0]] + cells[1..];
        }
      }
      res
  }

  /** The matrix row of one placement: its covered cells' columns and its piece's column. */
  function MatrixRow(fill: seq<Cell>, ids: seq<string>, pl: Placement): (row: seq<bool>)
    requires NoRepeats(fill) && NoRepeats(ids)
    requires forall i :: 0 <= i < |pl.covered| ==> pl.covered[i] in fill
    requires pl.pieceId in ids
    ensures |row| == |fill| + |ids|
    ensures forall j :: 0 <= j < |fill| ==> (row[j] <==> fill[j] in pl.covered)
    ensures forall t :: 0 <= t < |ids| ==> (row[|fill| + t] <==> ids[t] == pl.pieceId)
  {
    var blank := seq(|fill| + |ids|, _ => false);
    var cellsMarked := MarkCells(blank, fill, pl.covered);
    cellsMarked[|fill| + IndexIn(ids, pl.pieceId) := true]
  }

  /** Exactly one piece column is set in a placement's row. */
  lemma ExactlyOnePieceColumn(fill: seq<Cell>, ids: seq<string>, pl: Placement)
    requires NoRepeats(fill) && NoRepeats(ids)
    requires forall i :: 0 <= i < |pl.covered| ==> pl.covered[i] in fill
    requires pl.pieceId in ids
    ensures var row := MatrixRow(fill, ids, pl);
      (exists j :: |fill| <= j < |row| && row[j])
      && forall j1, j2 :: |fill| <= j1 < |row| && |fill| <= j2 < |row| && row[j1] && row[j2] ==> j1 == j2
  {
    var row := MatrixRow(fill, ids, pl);
    assert row[|fill| + IndexIn(ids, pl.pieceId)];
    forall j1, j2 | |fill| <= j1 < |row| && |fill| <= j2 < |row| && row[j1] && row[j2] ensures j1 == j2 {
      assert ids[j1 - |fill|] == pl.pieceId;
      assert ids[j2 - |fill|] == pl.pieceId;
    }
  }

  /** The fillable cells of `b` listed without repeats. */
  lemma FillableNoRepeats(b: Board)
    ensures NoRepeats(AllFillableCells(b))
  {
    AllFillableCellsDistinct(b);
  }

  /** Every generated placement covers listed fillable cells only. */
  lemma GeneratedCellsListed(b: Board, pieces: seq<Piece>)
    ensures forall k, i :: 0 <= k < |GenerateAllPlacements(b, pieces)| && 0 <= i < |GenerateAllPlacements(b, pieces)[k].covered| ==>
      GenerateAllPlacements(b, pieces)[k].covered[i] in AllFillableCells(b)
  {
    var pls := GenerateAllPlacements(b, pieces);
    forall k, i | 0 <= k < |pls| && 0 <= i < |pls[k].covered| ensures pls[k].covered[i] in AllFillableCells(b) {
      GeneratedPlacementCells(b, pieces, pls[k]);
    }
  }

  /** The matrix `solve()` hands to the exact-cover search. */
  function Matrix(b: Board, pieces: seq<Piece>): (p: ExactCover.Problem)
    ensures p.numCols == |AllFillableCells(b)| + |PieceIds(GenerateAllPlacements(b, pieces))|
    ensures |p.rows| == |GenerateAllPlacements(b, pieces)|
    ensures ExactCover.WellFormed(p)
  {
    var fill := AllFillableCells(b);
    var pls := GenerateAllPlacements(b, pieces);
    var ids := PieceIds(pls);
    FillableNoRepeats(b);
    GeneratedCellsListed(b, pieces);
    ExactCover.Problem(|fill| + |ids|, RowsOf(fill, ids, pls))
  }

  /** The matrix rows, one per placement, in placement order. */
  function RowsOf(fill: seq<Cell>, ids: seq<string>, pls: seq<Placement>): (rows: seq<seq<bool>>)
    requires NoRepeats(fill) && NoRepeats(ids)
    requires forall k, i :: 0 <= k < |pls| && 0 <= i < |pls[k].covered| ==> pls[k].covered[i] in fill
    requires forall k :: 0 <= k < |pls| ==> pls[k].pieceId in ids
    ensures |rows| == |pls|
    ensures forall k :: 0 <= k < |pls| ==> rows[k] == MatrixRow(fill, ids, pls[k])
    decreases |pls|
  {
    if |pls| == 0 then [] else [MatrixRow(fill, ids, pls[0])] + RowsOf(fill, ids, pls[1..])
  }

  /** The placements at the given row indices, in that order. */
  function Pick(pls: seq<Placement>, idx: seq<nat>): (sol: seq<Placement>)
    requires forall k :: 0 <= k < |idx| ==> idx[k] < |pls|
    ensures |sol| == |idx| && forall k :: 0 <= k < |idx| ==> sol[k] == pls[idx[k]]
    decreases |idx|
  {
    if |idx| == 0 then [] else [pls[idx[0]]] + Pick(pls, idx[1..])
  }

  /** Java `solve()`: none when the search finds no exact cover, otherwise the
      placements of the chosen rows in the order the search chose them. */
  function Solve(b: Board, pieces: seq<Piece>): Option<seq<Placement>> {
    var p := Matrix(b, pieces);
    var pls := GenerateAllPlacements(b, pieces);
    ExactCover.SolveSound(p);
    match ExactCover.Solve(p)
    case None => None
    case Some(idx) =>
      assert ExactCover.RowsWithin(ExactCover.RowSets(p), idx, ExactCover.AllCols(p));
      Some(Pick(pls, idx))
  }

  // ---- what a solution means on the board --------------------------------

  /** Every fillable cell is covered by some chosen placement. */
  ghost predicate CellsCovered(b: Board, pls: seq<Placement>, chosen: set<nat>) {
    forall x: Cell :: IsFillable(b, x.row, x.col) ==> exists r :: r in chosen && r < |pls| && x in pls[r].covered
  }

  /** No cell is covered by two different chosen placements. */
  ghost predicate CellsUnshared(pls: seq<Placement>, chosen: set<nat>) {
    forall r1, r2, x :: r1 in chosen && r2 in chosen && r1 < |pls| && r2 < |pls| && r1 != r2 && x in pls[r1].covered
      ==> x !in pls[r2].covered
  }

  /** Every piece that has some placement is used by a chosen placement. */
  ghost predicate IdsUsed(pls: seq<Placement>, chosen: set<nat>) {
    forall pl :: pl in pls ==> exists r :: r in chosen && r < |pls| && pls[r].pieceId == pl.pieceId
  }

  /** No piece is used by two different chosen placements. */
  ghost predicate IdsUnshared(pls: seq<Placement>, chosen: set<nat>) {
    forall r1, r2 :: r1 in chosen && r2 in chosen && r1 < |pls| && r2 < |pls| && r1 != r2
      ==> pls[r1].pieceId != pls[r2].pieceId
  }

  /** The chosen placements (indices into `pls`) tile the fillable cells, each
      placeable piece exactly once. */
  ghost predicate Tiles(b: Board, pls: seq<Placement>, chosen: set<nat>) {
    (forall r :: r in chosen ==> r < |pls|)
    && CellsCovered(b, pls, chosen) && CellsUnshared(pls, chosen)
    && IdsUsed(pls, chosen) && IdsUnshared(pls, chosen)
  }

  /** The same, for a solution listed as placements. */
  ghost predicate SolutionCovers(b: Board, sol: seq<Placement>) {
    forall x: Cell :: IsFillable(b, x.row, x.col) ==> exists k :: 0 <= k < |sol| && x in sol[k].covered
  }

  ghost predicate SolutionUnshared(sol: seq<Placement>) {
    forall k1, k2, x :: 0 <= k1 < k2 < |sol| && x in sol[k1].covered ==> x !in sol[k2].covered
  }

  ghost predicate SolutionUsesAll(pls: seq<Placement>, sol: seq<Placement>) {
    forall pl :: pl in pls ==> exists k :: 0 <= k < |sol| && sol[k].pieceId == pl.pieceId
  }

  ghost predicate SolutionIdsDistinct(sol: seq<Placement>) {
    forall k1, k2 :: 0 <= k1 < k2 < |sol| ==> sol[k1].pieceId != sol[k2].pieceId
  }

  lemma IndexInOf<T>(s: seq<T>, k: nat)
    requires NoRepeats(s) && k < |s|
    ensures IndexIn(s, s[k]) == k
  {
    var j := IndexIn(s, s[k]);
    assert s[j] == s[k];
  }

  /** The meaning of each matrix column for row `i`: a cell column is set when
      the placement covers that cell, a piece column when it is that piece. */
  lemma RowColumns(b: Board, pieces: seq<Piece>, i: nat, j: nat)
    requires i < |GenerateAllPlacements(b, pieces)|
    ensures var fill := AllFillableCells(b);
      var pls := GenerateAllPlacements(b, pieces);
      var ids := PieceIds(pls);
      var rs := ExactCover.RowSets(Matrix(b, pieces));
      i < |rs|
      && (j in rs[i] ==> j < |fill| + |ids|)
      && (j < |fill| ==> (j in rs[i] <==> fill[j] in pls[i].covered))
      && (|fill| <= j < |fill| + |ids| ==> (j in rs[i] <==> ids[j - |fill|] == pls[i].pieceId))
  {
    var fill := AllFillableCells(b);
    var ids := PieceIds(GenerateAllPlacements(b, pieces));
    var row := MatrixRowAt(b, pieces, i);
    if |fill| <= j < |fill| + |ids| {
      assert row[|fill| + (j - |fill|)] == row[j];
    }
  }

  /** Row `i` of the matrix, as the column set the search sees, is the row
      `MatrixRow` builds for placement `i`. */
  lemma MatrixRowAt(b: Board, pieces: seq<Piece>, i: nat) returns (row: seq<bool>)
    requires i < |GenerateAllPlacements(b, pieces)|
    ensures var fill := AllFillableCells(b);
      var pls := GenerateAllPlacements(b, pieces);
      var ids := PieceIds(pls);
      var rs := ExactCover.RowSets(Matrix(b, pieces));
      i < |rs| && |row| == |fill| + |ids|
      && (forall j: nat :: j in rs[i] <==> j < |fill| + |ids| && row[j])
      && (forall j :: 0 <= j < |fill| ==> (row[j] <==> fill[j] in pls[i].covered))
      && (forall t :: 0 <= t < |ids| ==> (row[|fill| + t] <==> ids[t] == pls[i].pieceId))
  {
    var fill := AllFillableCells(b);
    var pls := GenerateAllPlacements(b, pieces);
    var ids := PieceIds(pls);
    MatrixRows(b, pieces);
    var p := Matrix(b, pieces);
    row := MatrixRow(fill, ids, pls[i]);
    assert p.rows[i] == row;
    ExactCover.RowSetAt(p, i);
  }

  /** The matrix rows are the rows `MatrixRow` builds, one per placement. */
  lemma MatrixRows(b: Board, pieces: seq<Piece>)
    ensures var fill := AllFillableCells(b);
      var pls := GenerateAllPlacements(b, pieces);
      var ids := PieceIds(pls);
      NoRepeats(fill) && NoRepeats(ids)
      && (forall k, i :: 0 <= k < |pls| && 0 <= i < |pls[k].covered| ==> pls[k].covered[i] in fill)
      && (forall k :: 0 <= k < |pls| ==> pls[k].pieceId in ids)
      && Matrix(b, pieces).rows == RowsOf(fill, ids, pls)
  {
    FillableNoRepeats(b);
    GeneratedCellsListed(b, pieces);
  }

  /** The column of a fillable cell. */
  lemma CellColumn(b: Board, pieces: seq<Piece>, x: Cell)
    requires IsFillable(b, x.row, x.col)
    ensures x in AllFillableCells(b)
    ensures IndexIn(AllFillableCells(b), x) in ExactCover.AllCols(Matrix(b, pieces))
  {
  }

  /** The column of a piece that has some placement. */
  lemma IdColumn(b: Board, pieces: seq<Piece>, pl: Placement)
    requires pl in GenerateAllPlacements(b, pieces)
    ensures pl.pieceId in PieceIds(GenerateAllPlacements(b, pieces))
    ensures |AllFillableCells(b)| + IndexIn(PieceIds(GenerateAllPlacements(b, pieces)), pl.pieceId)
            in ExactCover.AllCols(Matrix(b, pieces))
  {
  }

  /** Every column a row marks is a column of the matrix. */
  lemma RowsInside(b: Board, pieces: seq<Piece>, chosen: set<nat>)
    requires forall r :: r in chosen ==> r < |GenerateAllPlacements(b, pieces)|
    ensures ExactCover.SetWithin(ExactCover.RowSets(Matrix(b, pieces)), chosen, ExactCover.AllCols(Matrix(b, pieces)))
  {
  }

  // soundness of the listed solution, one property at a time

  /** The listed solution is the chosen rows' placements, and those rows form an
      exact cover of the matrix. */
  lemma SolveRows(b: Board, pieces: seq<Piece>)
    requires Solve(b, pieces).Some?
    ensures ExactCover.Solve(Matrix(b, pieces)).Some?
    ensures var idx := ExactCover.Solve(Matrix(b, pieces)).value;
      var sol := Solve(b, pieces).value;
      var pls := GenerateAllPlacements(b, pieces);
      ExactCover.ExactCoverOf(ExactCover.RowSets(Matrix(b, pieces)), idx, ExactCover.AllCols(Matrix(b, pieces)))
      && |sol| == |idx| && forall k :: 0 <= k < |idx| ==> idx[k] < |pls| && sol[k] == pls[idx[k]]
  {
    ExactCover.SolveSound(Matrix(b, pieces));
  }

  lemma CellCovered(b: Board, pieces: seq<Piece>, idx: seq<nat>, sol: seq<Placement>, x: Cell)
    requires ExactCover.CoversAll(ExactCover.RowSets(Matrix(b, pieces)), idx, ExactCover.AllCols(Matrix(b, pieces)))
    requires |sol| == |idx|
    requires forall k :: 0 <= k < |idx| ==> idx[k] < |GenerateAllPlacements(b, pieces)| && sol[k] == GenerateAllPlacements(b, pieces)[idx[k]]
    requires IsFillable(b, x.row, x.col)
    ensures exists k :: 0 <= k < |sol| && x in sol[k].covered
  {
    var rs := ExactCover.RowSets(Matrix(b, pieces));
    CellColumn(b, pieces, x);
    var j := IndexIn(AllFillableCells(b), x);
    var k :| 0 <= k < |idx| && idx[k] < |rs| && j in rs[idx[k]];
    RowColumns(b, pieces, idx[k], j);
    assert x in sol[k].covered;
  }

  lemma SolutionCoversSound(b: Board, pieces: seq<Piece>)
    requires Solve(b, pieces).Some?
    ensures SolutionCovers(b, Solve(b, pieces).value)
  {
    SolveRows(b, pieces);
    var idx := ExactCover.Solve(Matrix(b, pieces)).value;
    var sol := Solve(b, pieces).value;
    forall x: Cell | IsFillable(b, x.row, x.col) ensures exists k :: 0 <= k < |sol| && x in sol[k].covered {
      CellCovered(b, pieces, idx, sol, x);
    }
  }

  lemma SolutionUnsharedSound(b: Board, pieces: seq<Piece>)
    requires Solve(b, pieces).Some?
    ensures SolutionUnshared(Solve(b, pieces).value)
  {
    var p := Matrix(b, pieces);
    var rs := ExactCover.RowSets(p);
    var fill := AllFillableCells(b);
    var pls := GenerateAllPlacements(b, pieces);
    ExactCover.SolveSound(p);
    var idx := ExactCover.Solve(p).value;
    var sol := Solve(b, pieces).value;
    assert ExactCover.PairwiseDisjoint(rs, idx);
    forall k1, k2, x | 0 <= k1 < k2 < |sol| && x in sol[k1].covered ensures x !in sol[k2].covered {
      GeneratedPlacementCells(b, pieces, pls[idx[k1]]);
      CellColumn(b, pieces, x);
      var j := IndexIn(fill, x);
      RowColumns(b, pieces, idx[k1], j);
      RowColumns(b, pieces, idx[k2], j);
      assert j in rs[idx[k1]];
      assert rs[idx[k1]] !! rs[idx[k2]];
    }
  }

  /** A row of the exact cover that uses the piece of `pl`. */
  lemma PieceRow(b: Board, pieces: seq<Piece>, idx: seq<nat>, pl: Placement) returns (k: nat)
    requires ExactCover.CoversAll(ExactCover.RowSets(Matrix(b, pieces)), idx, ExactCover.AllCols(Matrix(b, pieces)))
    requires pl in GenerateAllPlacements(b, pieces)
    ensures k < |idx| && idx[k] < |GenerateAllPlacements(b, pieces)|
    ensures GenerateAllPlacements(b, pieces)[idx[k]].pieceId == pl.pieceId
  {
    var rs := ExactCover.RowSets(Matrix(b, pieces));
    var ids := PieceIds(GenerateAllPlacements(b, pieces));
    var n := |AllFillableCells(b)|;
    IdColumn(b, pieces, pl);
    var t := IndexIn(ids, pl.pieceId);
    var j := n + t;
    k := ExactCover.CoverRow(rs, idx, ExactCover.AllCols(Matrix(b, pieces)), j);
    RowColumns(b, pieces, idx[k], j);
    assert j - n == t;
    assert ids[t] == GenerateAllPlacements(b, pieces)[idx[k]].pieceId;
  }

  lemma IdUsed(b: Board, pieces: seq<Piece>, idx: seq<nat>, sol: seq<Placement>, pl: Placement)
    requires ExactCover.CoversAll(ExactCover.RowSets(Matrix(b, pieces)), idx, ExactCover.AllCols(Matrix(b, pieces)))
    requires |sol| == |idx|
    requires forall k :: 0 <= k < |idx| ==> idx[k] < |GenerateAllPlacements(b, pieces)| && sol[k] == GenerateAllPlacements(b, pieces)[idx[k]]
    requires pl in GenerateAllPlacements(b, pieces)
    ensures exists k :: 0 <= k < |sol| && sol[k].pieceId == pl.pieceId
  {
    var k := PieceRow(b, pieces, idx, pl);
    assert sol[k].pieceId == pl.pieceId;
  }

  lemma SolutionUsesAllSound(b: Board, pieces: seq<Piece>)
    requires Solve(b, pieces).Some?
    ensures SolutionUsesAll(GenerateAllPlacements(b, pieces), Solve(b, pieces).value)
  {
    SolveRows(b, pieces);
    var idx := ExactCover.Solve(Matrix(b, pieces)).value;
    var sol := Solve(b, pieces).value;
    forall pl | pl in GenerateAllPlacements(b, pieces) ensures exists k :: 0 <= k < |sol| && sol[k].pieceId == pl.pieceId {
      IdUsed(b, pieces, idx, sol, pl);
    }
  }

  lemma SolutionIdsDistinctSound(b: Board, pieces: seq<Piece>)
    requires Solve(b, pieces).Some?
    ensures SolutionIdsDistinct(Solve(b, pieces).value)
  {
    SolveRows(b, pieces);
    var idx := ExactCover.Solve(Matrix(b, pieces)).value;
    var sol := Solve(b, pieces).value;
    forall k1, k2 | 0 <= k1 < k2 < |sol| ensures sol[k1].pieceId != sol[k2].pieceId {
      RowIdsDiffer(b, pieces, idx, k1, k2);
    }
  }

  /** Two different rows of a disjoint selection are placements of different pieces:
      they would otherwise share the piece's column. */
  lemma RowIdsDiffer(b: Board, pieces: seq<Piece>, idx: seq<nat>, k1: nat, k2: nat)
    requires ExactCover.PairwiseDisjoint(ExactCover.RowSets(Matrix(b, pieces)), idx)
    requires k1 < k2 < |idx| && idx[k1] < |GenerateAllPlacements(b, pieces)| && idx[k2] < |GenerateAllPlacements(b, pieces)|
    ensures GenerateAllPlacements(b, pieces)[idx[k1]].pieceId != GenerateAllPlacements(b, pieces)[idx[k2]].pieceId
  {
    var rs := ExactCover.RowSets(Matrix(b, pieces));
    var pls := GenerateAllPlacements(b, pieces);
    var ids := PieceIds(pls);
    IdColumn(b, pieces, pls[idx[k1]]);
    var j := |AllFillableCells(b)| + IndexIn(ids, pls[idx[k1]].pieceId);
    RowColumns(b, pieces, idx[k1], j);
    RowColumns(b, pieces, idx[k2], j);
    assert j in rs[idx[k1]];
    assert rs[idx[k1]] !! rs[idx[k2]];
  }

  lemma SolutionLegalSound(b: Board, pieces: seq<Piece>)
    requires Solve(b, pieces).Some?
    ensures forall k :: 0 <= k < |Solve(b, pieces).value| ==> Legal(b, pieces, Solve(b, pieces).value[k])
  {
    var sol := Solve(b, pieces).value;
    var p := Matrix(b, pieces);
    ExactCover.SolveSound(p);
    var idx := ExactCover.Solve(p).value;
    assert ExactCover.RowsWithin(ExactCover.RowSets(p), idx, ExactCover.AllCols(p));
    forall k | 0 <= k < |sol| ensures Legal(b, pieces, sol[k]) {
      GenerateAllPlacementsSpec(b, pieces, sol[k]);
    }
  }

  /** What `solve()` returns, when it returns a list: legal placements of the
      given pieces that cover every fillable cell exactly once and use every
      piece that has a placement exactly once. */
  lemma SolveSound(b: Board, pieces: seq<Piece>)
    ensures Solve(b, pieces).Some? ==>
      var sol := Solve(b, pieces).value;
      (forall k :: 0 <= k < |sol| ==> Legal(b, pieces, sol[k]))
      && SolutionCovers(b, sol) && SolutionUnshared(sol)
      && SolutionUsesAll(GenerateAllPlacements(b, pieces), sol) && SolutionIdsDistinct(sol)
  {
    if Solve(b, pieces).Some? {
      SolutionLegalSound(b, pieces);
      SolutionCoversSound(b, pieces);
      SolutionUnsharedSound(b, pieces);
      SolutionUsesAllSound(b, pieces);
      SolutionIdsDistinctSound(b, pieces);
    }
  }

  /** `solve()` returns a list exactly when the exact-cover search does. */
  lemma SolveFound(b: Board, pieces: seq<Piece>)
    ensures Solve(b, pieces).Some? <==> ExactCover.Solve(Matrix(b, pieces)).Some?
  {
  }

  // ---- tilings are exactly the exact covers of the matrix -----------------

  lemma TilesCoverColumn(b: Board, pieces: seq<Piece>, chosen: set<nat>, j: nat)
    requires Tiles(b, GenerateAllPlacements(b, pieces), chosen)
    requires j in ExactCover.AllCols(Matrix(b, pieces))
    ensures exists r :: r in chosen && r < |ExactCover.RowSets(Matrix(b, pieces))| && j in ExactCover.RowSets(Matrix(b, pieces))[r]
  {
    var r := TilingRowAt(b, GenerateAllPlacements(b, pieces), chosen, j);
    RowColumns(b, pieces, r, j);
  }

  /** The chosen row that accounts for column `j`: the one covering its cell,
      or the one placing its piece. */
  lemma TilingRowAt(b: Board, pls: seq<Placement>, chosen: set<nat>, j: nat) returns (r: nat)
    requires CellsCovered(b, pls, chosen) && IdsUsed(pls, chosen)
    requires j < |AllFillableCells(b)| + |PieceIds(pls)|
    ensures var fill := AllFillableCells(b);
      r in chosen && r < |pls|
      && (j < |fill| ==> fill[j] in pls[r].covered)
      && (j >= |fill| ==> PieceIds(pls)[j - |fill|] == pls[r].pieceId)
  {
    var fill := AllFillableCells(b);
    var ids := PieceIds(pls);
    if j < |fill| {
      var x := fill[j];
      assert IsFillable(b, x.row, x.col);
      r :| r in chosen && r < |pls| && x in pls[r].covered;
    } else {
      var t := j - |fill|;
      assert ids[t] in ids;
      var pl :| pl in pls && pl.pieceId == ids[t];
      r :| r in chosen && r < |pls| && pls[r].pieceId == pl.pieceId;
    }
  }

  lemma TilesDisjointRows(b: Board, pieces: seq<Piece>, chosen: set<nat>, r1: nat, r2: nat)
    requires Tiles(b, GenerateAllPlacements(b, pieces), chosen)
    requires r1 in chosen && r2 in chosen && r1 != r2
    ensures r1 < |ExactCover.RowSets(Matrix(b, pieces))| && r2 < |ExactCover.RowSets(Matrix(b, pieces))|
    ensures ExactCover.RowSets(Matrix(b, pieces))[r1] !! ExactCover.RowSets(Matrix(b, pieces))[r2]
  {
    var fill := AllFillableCells(b);
    var pls := GenerateAllPlacements(b, pieces);
    var rs := ExactCover.RowSets(Matrix(b, pieces));
    forall j | j in rs[r1] ensures j !in rs[r2] {
      RowColumns(b, pieces, r1, j);
      RowColumns(b, pieces, r2, j);
      if j < |fill| {
        assert fill[j] in pls[r1].covered;
      }
    }
  }

  /** A tiling of the board by generated placements is an exact cover of the matrix. */
  lemma TilesAreCovers(b: Board, pieces: seq<Piece>, chosen: set<nat>)
    requires Tiles(b, GenerateAllPlacements(b, pieces), chosen)
    ensures ExactCover.ExactCoverSet(ExactCover.RowSets(Matrix(b, pieces)), chosen, ExactCover.AllCols(Matrix(b, pieces)))
  {
    var rs := ExactCover.RowSets(Matrix(b, pieces));
    var cols := ExactCover.AllCols(Matrix(b, pieces));
    RowsInside(b, pieces, chosen);
    forall j | j in cols ensures exists r :: r in chosen && r < |rs| && j in rs[r] {
      TilesCoverColumn(b, pieces, chosen, j);
    }
    forall r1, r2 | r1 in chosen && r2 in chosen && r1 != r2 && r1 < |rs| && r2 < |rs| ensures rs[r1] !! rs[r2] {
      TilesDisjointRows(b, pieces, chosen, r1, r2);
    }
  }

  lemma CoverCellsCovered(b: Board, pieces: seq<Piece>, chosen: set<nat>, x: Cell)
    requires ExactCover.SetCovers(ExactCover.RowSets(Matrix(b, pieces)), chosen, ExactCover.AllCols(Matrix(b, pieces)))
    requires IsFillable(b, x.row, x.col)
    ensures exists r :: r in chosen && r < |GenerateAllPlacements(b, pieces)| && x in GenerateAllPlacements(b, pieces)[r].covered
  {
    var rs := ExactCover.RowSets(Matrix(b, pieces));
    CellColumn(b, pieces, x);
    var j := IndexIn(AllFillableCells(b), x);
    var r := ExactCover.SetCoverRow(rs, chosen, ExactCover.AllCols(Matrix(b, pieces)), j);
    RowColumns(b, pieces, r, j);
  }

  lemma CoverIdsUsed(b: Board, pieces: seq<Piece>, chosen: set<nat>, pl: Placement)
    requires ExactCover.SetCovers(ExactCover.RowSets(Matrix(b, pieces)), chosen, ExactCover.AllCols(Matrix(b, pieces)))
    requires pl in GenerateAllPlacements(b, pieces)
    ensures exists r :: r in chosen && r < |GenerateAllPlacements(b, pieces)| && GenerateAllPlacements(b, pieces)[r].pieceId == pl.pieceId
  {
    var rs := ExactCover.RowSets(Matrix(b, pieces));
    var ids := PieceIds(GenerateAllPlacements(b, pieces));
    var n := |AllFillableCells(b)|;
    IdColumn(b, pieces, pl);
    var t := IndexIn(ids, pl.pieceId);
    var j := n + t;
    var r := ExactCover.SetCoverRow(rs, chosen, ExactCover.AllCols(Matrix(b, pieces)), j);
    RowColumns(b, pieces, r, j);
    assert j - n == t;
  }

  lemma CoverRowsUnshared(b: Board, pieces: seq<Piece>, chosen: set<nat>, r1: nat, r2: nat)
    requires ExactCover.SetDisjoint(ExactCover.RowSets(Matrix(b, pieces)), chosen)
    requires r1 in chosen && r2 in chosen && r1 != r2
    requires r1 < |GenerateAllPlacements(b, pieces)| && r2 < |GenerateAllPlacements(b, pieces)|
    ensures forall x :: x in GenerateAllPlacements(b, pieces)[r1].covered ==> x !in GenerateAllPlacements(b, pieces)[r2].covered
    ensures GenerateAllPlacements(b, pieces)[r1].pieceId != GenerateAllPlacements(b, pieces)[r2].pieceId
  {
    var pls := GenerateAllPlacements(b, pieces);
    var rs := ExactCover.RowSets(Matrix(b, pieces));
    var fill := AllFillableCells(b);
    var ids := PieceIds(pls);
    RowColumns(b, pieces, r1, 0);
    assert rs[r1] !! rs[r2];
    forall x | x in pls[r1].covered ensures x !in pls[r2].covered {
      GeneratedPlacementCells(b, pieces, pls[r1]);
      CellColumn(b, pieces, x);
      var j := IndexIn(fill, x);
      RowColumns(b, pieces, r1, j);
      RowColumns(b, pieces, r2, j);
    }
    IdColumn(b, pieces, pls[r1]);
    var t := IndexIn(ids, pls[r1].pieceId);
    var j := |fill| + t;
    RowColumns(b, pieces, r1, j);
    RowColumns(b, pieces, r2, j);
    assert j - |fill| == t;
  }

  /** An exact cover of the matrix is a tiling of the board by generated placements. */
  lemma CoversAreTiles(b: Board, pieces: seq<Piece>, chosen: set<nat>)
    requires ExactCover.ExactCoverSet(ExactCover.RowSets(Matrix(b, pieces)), chosen, ExactCover.AllCols(Matrix(b, pieces)))
    ensures Tiles(b, GenerateAllPlacements(b, pieces), chosen)
  {
    var pls := GenerateAllPlacements(b, pieces);
    var rs := ExactCover.RowSets(Matrix(b, pieces));
    assert |rs| == |pls|;
    assert ExactCover.SetWithin(rs, chosen, ExactCover.AllCols(Matrix(b, pieces)));
    assert forall r :: r in chosen ==> r < |pls|;
    forall x: Cell | IsFillable(b, x.row, x.col) ensures exists r :: r in chosen && r < |pls| && x in pls[r].covered {
      CoverCellsCovered(b, pieces, chosen, x);
    }
    assert CellsCovered(b, pls, chosen);
    forall pl | pl in pls ensures exists r :: r in chosen && r < |pls| && pls[r].pieceId == pl.pieceId {
      CoverIdsUsed(b, pieces, chosen, pl);
    }
    assert IdsUsed(pls, chosen);
    forall r1, r2 | r1 in chosen && r2 in chosen && r1 < |pls| && r2 < |pls| && r1 != r2
      ensures (forall x :: x in pls[r1].covered ==> x !in pls[r2].covered) && pls[r1].pieceId != pls[r2].pieceId {
      CoverRowsUnshared(b, pieces, chosen, r1, r2);
    }
    assert CellsUnshared(pls, chosen);
    assert IdsUnshared(pls, chosen);
  }

  /** A solution from the search picks rows that tile the board. */
  lemma SolutionIsTiling(b: Board, pieces: seq<Piece>)
    requires Solve(b, pieces).Some?
    ensures exists chosen :: Tiles(b, GenerateAllPlacements(b, pieces), chosen)
  {
    var p := Matrix(b, pieces);
    SolveFound(b, pieces);
    ExactCover.SolveComplete(p);
    var rows :| ExactCover.ExactCoverSet(ExactCover.RowSets(p), rows, ExactCover.AllCols(p));
    CoversAreTiles(b, pieces, rows);
  }

  /** When a tiling exists, the search finds one. */
  lemma TilingIsFound(b: Board, pieces: seq<Piece>, chosen: set<nat>)
    requires Tiles(b, GenerateAllPlacements(b, pieces), chosen)
    ensures Solve(b, pieces).Some?
  {
    var p := Matrix(b, pieces);
    TilesAreCovers(b, pieces, chosen);
    ExactCover.SolveComplete(p);
    SolveFound(b, pieces);
  }

  /** `solve()` finds a solution exactly when the generated placements can tile
      the board: every fillable cell once, every placeable piece once. */
  lemma SolveComplete(b: Board, pieces: seq<Piece>)
    ensures Solve(b, pieces).Some? <==> exists chosen :: Tiles(b, GenerateAllPlacements(b, pieces), chosen)
  {
    if Solve(b, pieces).Some? {
      SolutionIsTiling(b, pieces);
    }
    if chosen :| Tiles(b, GenerateAllPlacements(b, pieces), chosen) {
      TilingIsFound(b, pieces, chosen);
    }
  }
}
