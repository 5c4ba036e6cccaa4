/** The manual-play engine of the web front end (`App.js`): dropping a piece
    on the board, rotating a piece, taking a piece back, and the two ways the
    whole solution is replaced. React state updates become pure transitions
    on `AppState`. The board entries are the `BoardCell`s the server's board
    endpoint returns, and the "row-col" string keys of the JavaScript are
    modelled by the cells themselves (the key of a cell pair of integers is
    unique). */
module App {
  import opened Results
  import opened Cells
  import opened Boards
  import Pieces
  import Controllers

  type BoardCell = Controllers.BoardCell

  /** A piece as the front end holds it: the server's fields plus `used`. */
  datatype UiPiece = UiPiece(id: int, name: string, shape: seq<Cell>, used: bool)

  /** One `{pieceId, cells}` entry of the solution shown on the board. */
  datatype UiPlacement = UiPlacement(pieceId: int, cells: seq<Cell>)

  datatype AppState = AppState(
    boardData: seq<BoardCell>,
    pieces: seq<UiPiece>,
    dragged: Option<UiPiece>,
    solution: seq<UiPlacement>)

  // ---- what the board and the solution say about one position ----------

  /** Some board entry at `x` is not OFF_BOARD. */
  predicate OnBoard(data: seq<BoardCell>, x: Cell) {
    exists k :: 0 <= k < |data| && Controllers.PosOf(data[k]) == x && data[k].state != OffBoard
  }

  /** Some board entry at `x` is a TARGET. */
  predicate IsTarget(data: seq<BoardCell>, x: Cell) {
    exists k :: 0 <= k < |data| && Controllers.PosOf(data[k]) == x && data[k].state == Target
  }

  /** Some placement of the solution already covers `x`. */
  predicate Filled(sol: seq<UiPlacement>, x: Cell) {
    exists k :: 0 <= k < |sol| && x in sol[k].cells
  }

  // ---- handleDropOnBoard -------------------------------------------------

  /** The cells a shape dropped with its origin at (row, col) would cover:
      one per offset, in the shape's order. */
  function Candidates(p: UiPiece, row: int, col: int): (cs: seq<Cell>)
    ensures |cs| == |p.shape|
    ensures forall i :: 0 <= i < |cs| ==> cs[i] == Cell(row + p.shape[i].row, col + p.shape[i].col)
  {
    Translate(p.shape, row, col)
  }

  /** The set of "row-col" keys of the non-OFF_BOARD entries. */
  function BoardCellSet(data: seq<BoardCell>): (s: set<Cell>)
    ensures forall x :: x in s <==> OnBoard(data, x)
  {
    set k | 0 <= k < |data| && data[k].state != OffBoard :: Controllers.PosOf(data[k])
  }

  /** The set of keys of the TARGET entries. */
  function TargetCellSet(data: seq<BoardCell>): (s: set<Cell>)
    ensures forall x :: x in s <==> IsTarget(data, x)
  {
    set k | 0 <= k < |data| && data[k].state == Target :: Controllers.PosOf(data[k])
  }

  /** The set of keys covered by the current solution. */
  function FilledCells(sol: seq<UiPlacement>): (s: set<Cell>)
    ensures forall x :: x in s <==> Filled(sol, x)
  {
    set k, x | 0 <= k < |sol| && x in sol[k].cells :: x
  }

  /** How a drop ends. The two rejections show different alerts and
      otherwise behave alike. */
  datatype DropOutcome = NothingDragged | OffTheBoard | Overlaps | Placed

  /** The decision of the drop handler: the off-board test comes first, so a
      drop that is both off the board and overlapping counts as off the board. */
  function Decide(st: AppState, row: int, col: int): (o: DropOutcome)
    ensures o == NothingDragged <==> st.dragged.None?
    ensures o == OffTheBoard <==>
      st.dragged.Some? && exists x :: x in Candidates(st.dragged.value, row, col) && !OnBoard(st.boardData, x)
    ensures o == Overlaps <==>
      st.dragged.Some?
      && (forall x :: x in Candidates(st.dragged.value, row, col) ==> OnBoard(st.boardData, x))
      && exists x :: x in Candidates(st.dragged.value, row, col) && (Filled(st.solution, x) || IsTarget(st.boardData, x))
  {
    match st.dragged
    case None => NothingDragged
    case Some(p) =>
      var newCells := Candidates(p, row, col);
      var filledCells := FilledCells(st.solution);
      var targetCellSet := TargetCellSet(st.boardData);
      var boardCellSet := BoardCellSet(st.boardData);
      var allOnBoard := forall i :: 0 <= i < |newCells| ==> newCells[i] in boardCellSet;
      if !allOnBoard then OffTheBoard
      else
        var willOverlap := exists i :: 0 <= i < |newCells| && (newCells[i] in filledCells || newCells[i] in targetCellSet);
        if willOverlap then Overlaps else Placed
  }

  /** Sets `used` to `flag` on every piece with id `id`; the other pieces and
      the order are kept. */
  function SetUsed(ps: seq<UiPiece>, id: int, flag: bool): (qs: seq<UiPiece>)
    ensures |qs| == |ps|
    ensures forall i :: 0 <= i < |ps| ==>
      qs[i].id == ps[i].id && qs[i].name == ps[i].name && qs[i].shape == ps[i].shape
      && qs[i].used == (if ps[i].id == id then flag else ps[i].used)
  {
    seq(|ps|, i requires 0 <= i < |ps| => if ps[i].id == id then ps[i].(used := flag) else ps[i])
  }

  /** `handleDropOnBoard(row, col)`. A drop always ends the drag. A rejected
      drop changes nothing else; an accepted one appends exactly one placement
      covering the candidate cells and marks the dropped piece used. Whether
      the piece was already used is not looked at. */
  function HandleDrop(st: AppState, row: int, col: int): (r: AppState)
    ensures r.dragged.None? && r.boardData == st.boardData
    ensures Decide(st, row, col) != Placed ==> r == st.(dragged := None)
    ensures Decide(st, row, col) == Placed ==>
      var p := st.dragged.value;
      r.solution == st.solution + [UiPlacement(p.id, Candidates(p, row, col))]
      && r.pieces == SetUsed(st.pieces, p.id, true)
  {
    match Decide(st, row, col)
    case Placed =>
      var p := st.dragged.value;
      st.(pieces := SetUsed(st.pieces, p.id, true),
          solution := st.solution + [UiPlacement(p.id, Candidates(p, row, col))],
          dragged := None)
    case _ => st.(dragged := None)
  }

  // ---- the invariants manual play keeps ----------------------------------

  predicate NoCommon(a: seq<Cell>, b: seq<Cell>) {
    forall x :: x in a ==> x !in b
  }

  /** No cell belongs to two placements. */
  predicate Disjoint(sol: seq<UiPlacement>) {
    forall i, j :: 0 <= i < j < |sol| ==> NoCommon(sol[i].cells, sol[j].cells)
  }

  /** No placement covers a TARGET cell. */
  predicate AvoidsTargets(data: seq<BoardCell>, sol: seq<UiPlacement>) {
    forall q, x :: q in sol && x in q.cells ==> !IsTarget(data, x)
  }

  /** Every covered cell is a board cell that is not OFF_BOARD. */
  predicate StaysOnBoard(data: seq<BoardCell>, sol: seq<UiPlacement>) {
    forall q, x :: q in sol && x in q.cells ==> OnBoard(data, x)
  }

  predicate Consistent(st: AppState) {
    Disjoint(st.solution) && AvoidsTargets(st.boardData, st.solution) && StaysOnBoard(st.boardData, st.solution)
  }

  /** Drops alone keep the solution a set of disjoint placements on free,
      non-target board cells. */
  lemma DropKeepsConsistent(st: AppState, row: int, col: int)
    requires Consistent(st)
    ensures Consistent(HandleDrop(st, row, col))
  {
    if Decide(st, row, col) == Placed {
      var p := st.dragged.value;
      var q := UiPlacement(p.id, Candidates(p, row, col));
      var sol := st.solution + [q];
      assert HandleDrop(st, row, col).solution == sol;
      forall i, j | 0 <= i < j < |sol| ensures NoCommon(sol[i].cells, sol[j].cells) {
        if j == |st.solution| {
          forall x | x in sol[i].cells ensures x !in q.cells {
            assert Filled(st.solution, x);
          }
        }
      }
      forall q', x | q' in sol && x in q'.cells ensures !IsTarget(st.boardData, x) && OnBoard(st.boardData, x) {
        if q' != q {
          assert q' in st.solution;
        }
      }
    }
  }

  /** The `used` flag of the dragged piece makes no difference: a piece that
      is already on the board can be dropped a second time. */
  lemma DropIgnoresUsed(st: AppState, row: int, col: int, p: UiPiece, u: bool)
    ensures var a := HandleDrop(st.(dragged := Some(p)), row, col);
            var b := HandleDrop(st.(dragged := Some(p.(used := u))), row, col);
            a.solution == b.solution && a.pieces == b.pieces
  {
  }

  /** The same piece placed twice: dropping a used piece onto free board
      cells appends a second placement with its id. */
  lemma SecondDropAccepted(st: AppState, row: int, col: int)
    requires st.dragged.Some? && st.dragged.value.used
    requires forall x :: x in Candidates(st.dragged.value, row, col) ==>
      OnBoard(st.boardData, x) && !Filled(st.solution, x) && !IsTarget(st.boardData, x)
    ensures |HandleDrop(st, row, col).solution| == |st.solution| + 1
    ensures HandleDrop(st, row, col).solution[|st.solution|].pieceId == st.dragged.value.id
  {
  }

  // ---- rotatePiece -------------------------------------------------------

  /** The rotation of `rotatePiece`: (row, col) goes to (col, height - 1 - row)
      with height = max row + 1. It is the quarter turn of the server's
      `rotate90` for that height; the offsets are not shifted back to the
      origin afterwards. */
  function Turn(s: seq<Cell>): (t: seq<Cell>)
    ensures t == Pieces.Rotate90(s, MaxRow(s) + 1, MaxCol(s) + 1)
  {
    var height := MaxRow(s) + 1;
    seq(|s|, i requires 0 <= i < |s| => Cell(s[i].col, (height - 1) - s[i].row))
  }

  /** Where a turned shape sits: its rows are the old columns and its
      columns start at 0, so a shape whose columns did not start at 0 ends up
      off the origin. */
  lemma TurnBounds(s: seq<Cell>)
    requires |s| > 0
    ensures MinRow(Turn(s)) == MinCol(s) && MaxRow(Turn(s)) == MaxCol(s)
    ensures MinCol(Turn(s)) == 0 && MaxCol(Turn(s)) == MaxRow(s) - MinRow(s)
  {
    var t := Turn(s);
    assert Rows(t) == Cols(s);
    Pieces.MaxMapped(Rows(s), Cols(t), MaxRow(s));
  }

  /** A shape at the origin stays at the origin when turned. */
  lemma TurnKeepsNormalized(s: seq<Cell>)
    requires Normalized(s)
    ensures Normalized(Turn(s))
  {
    TurnBounds(s);
  }

  /** Four turns of a shape at the origin give back the same offsets in the
      same order. */
  lemma FourTurnsIdentity(s: seq<Cell>)
    requires Normalized(s)
    ensures Turn(Turn(Turn(Turn(s)))) == s
  {
    var h, w := MaxRow(s) + 1, MaxCol(s) + 1;
    TurnTight(s, h, w);
    TurnTight(Turn(s), w, h);
    TurnTight(Turn(Turn(s)), h, w);
    TurnTight(Turn(Turn(Turn(s))), w, h);
    Pieces.FourRotate90(s, h, w);
  }

  /** On a shape at the origin filling an h-by-w box, a turn is the server's
      quarter turn for that box and leaves a shape filling the w-by-h box. */
  lemma TurnTight(s: seq<Cell>, h: int, w: int)
    requires Pieces.Tight(s, h, w)
    ensures Turn(s) == Pieces.Rotate90(s, h, w)
    ensures Pieces.Tight(Turn(s), w, h)
  {
    Pieces.RotateKeepsTight(s, h, w);
  }

  /** Off the origin, turning drifts: the single offset (0, 1) comes back
      as (0, 0) after four turns. */
  lemma FourTurnsDrift()
    ensures Turn(Turn(Turn(Turn([Cell(0, 1)])))) == [Cell(0, 0)]
  {
    var s1 := Turn([Cell(0, 1)]);
    assert s1 == [Cell(1, 0)];
    var s2 := Turn(s1);
    assert MaxRow(s1) == 1;
    assert s2 == [Cell(0, 0)];
    assert MaxRow(s2) == 0;
  }

  /** `rotatePiece(pieceId)`: every piece with that id is turned; the other
      pieces, the order and every other part of the state are kept. */
  function RotatePiece(st: AppState, pieceId: int): (r: AppState)
    ensures r.boardData == st.boardData && r.dragged == st.dragged && r.solution == st.solution
    ensures |r.pieces| == |st.pieces|
    ensures forall i :: 0 <= i < |st.pieces| ==>
      r.pieces[i].id == st.pieces[i].id && r.pieces[i].name == st.pieces[i].name
      && r.pieces[i].used == st.pieces[i].used && |r.pieces[i].shape| == |st.pieces[i].shape|
    ensures forall i :: 0 <= i < |st.pieces| && st.pieces[i].id != pieceId ==> r.pieces[i] == st.pieces[i]
    ensures forall i :: 0 <= i < |st.pieces| && st.pieces[i].id == pieceId ==>
      r.pieces[i].shape == Turn(st.pieces[i].shape)
  {
    st.(pieces := seq(|st.pieces|, i requires 0 <= i < |st.pieces| => TurnIf(st.pieces[i], pieceId)))
  }

  /** The `map` callback of `rotatePiece`: the piece with that id is turned. */
  function TurnIf(piece: UiPiece, pieceId: int): UiPiece {
    if piece.id != pieceId then piece else piece.(shape := Turn(piece.shape))
  }

  /** Four calls of the callback give the piece back when its shape sits at the origin. */
  lemma TurnIfFourTimes(piece: UiPiece, pieceId: int)
    requires piece.id == pieceId ==> Normalized(piece.shape)
    ensures TurnIf(TurnIf(TurnIf(TurnIf(piece, pieceId), pieceId), pieceId), pieceId) == piece
  {
    if piece.id == pieceId {
      FourTurnsIdentity(piece.shape);
    }
  }

  /** Turning a piece four times restores the whole state when its shapes
      sit at the origin, as the server delivers them. */
  lemma RotateFourTimes(st: AppState, pieceId: int)
    requires forall i :: 0 <= i < |st.pieces| && st.pieces[i].id == pieceId ==> Normalized(st.pieces[i].shape)
    ensures RotatePiece(RotatePiece(RotatePiece(RotatePiece(st, pieceId), pieceId), pieceId), pieceId) == st
  {
    var r1 := RotatePiece(st, pieceId);
    var r2 := RotatePiece(r1, pieceId);
    var r3 := RotatePiece(r2, pieceId);
    var r4 := RotatePiece(r3, pieceId);
    forall i | 0 <= i < |st.pieces| ensures r4.pieces[i] == st.pieces[i] {
      TurnIfFourTimes(st.pieces[i], pieceId);
      assert r4.pieces[i] == TurnIf(r3.pieces[i], pieceId);
      assert r3.pieces[i] == TurnIf(r2.pieces[i], pieceId);
      assert r2.pieces[i] == TurnIf(r1.pieces[i], pieceId);
      assert r1.pieces[i] == TurnIf(st.pieces[i], pieceId);
    }
  }

  // ---- handlePieceRestore --------------------------------------------------

  /** The solution without the placements of `pieceId`, others in order. */
  function Without(sol: seq<UiPlacement>, pieceId: int): (r: seq<UiPlacement>)
    ensures |r| <= |sol|
    ensures forall q :: q in r <==> q in sol && q.pieceId != pieceId
  {
    if |sol| == 0 then []
    else if sol[0].pieceId == pieceId then Without(sol[1..], pieceId)
    else [sol[0]] + Without(sol[1..], pieceId)
  }

  /** Filtering distributes over concatenation, so order is kept. */
  lemma {:induction false} WithoutConcat(a: seq<UiPlacement>, b: seq<UiPlacement>, pieceId: int)
    ensures Without(a + b, pieceId) == Without(a, pieceId) + Without(b, pieceId)
    decreases |a|
  {
    if |a| > 0 {
      var ab := a + b;
      assert ab[0] == a[0] && ab[1..] == a[1..] + b;
      WithoutConcat(a[1..], b, pieceId);
      if a[0].pieceId != pieceId {
        var rest := Without(a[1..], pieceId);
        assert Without(ab, pieceId) == [a[0]] + (rest + Without(b, pieceId));
        assert Without(a, pieceId) == [a[0]] + rest;
      }
    } else {
      assert a + b == b;
    }
  }

  /** Nothing to remove: the solution is returned as it was. */
  lemma {:induction false} WithoutNothing(sol: seq<UiPlacement>, pieceId: int)
    requires forall k :: 0 <= k < |sol| ==> sol[k].pieceId != pieceId
    ensures Without(sol, pieceId) == sol
    decreases |sol|
  {
    if |sol| > 0 {
      WithoutNothing(sol[1..], pieceId);
      assert [sol[0]] + sol[1..] == sol;
    }
  }

  /** Removing placements keeps the rest pairwise disjoint. */
  lemma {:induction false} WithoutDisjoint(sol: seq<UiPlacement>, pieceId: int)
    requires Disjoint(sol)
    ensures Disjoint(Without(sol, pieceId))
    decreases |sol|
  {
    if |sol| > 0 {
      DisjointTail(sol);
      WithoutDisjoint(sol[1..], pieceId);
      if sol[0].pieceId != pieceId {
        KeptHeadDisjoint(sol, Without(sol[1..], pieceId));
      }
    }
  }

  /** Dropping the first placement keeps the others pairwise disjoint. */
  lemma DisjointTail(sol: seq<UiPlacement>)
    requires |sol| > 0 && Disjoint(sol)
    ensures Disjoint(sol[1..])
  {
    var rest := sol[1..];
    forall i, j | 0 <= i < j < |rest| ensures NoCommon(rest[i].cells, rest[j].cells) {
      assert rest[i] == sol[i + 1] && rest[j] == sol[j + 1];
    }
  }

  /** The first placement, put in front of disjoint placements drawn from the
      others, keeps the list disjoint. */
  lemma KeptHeadDisjoint(sol: seq<UiPlacement>, w: seq<UiPlacement>)
    requires |sol| > 0 && Disjoint(sol) && Disjoint(w)
    requires forall q :: q in w ==> q in sol[1..]
    ensures Disjoint([sol[0]] + w)
  {
    var r := [sol[0]] + w;
    forall i, j | 0 <= i < j < |r| ensures NoCommon(r[i].cells, r[j].cells) {
      if i == 0 {
        assert r[j] == w[j - 1] && w[j - 1] in sol[1..];
        var k :| 0 <= k < |sol[1..]| && sol[1..][k] == w[j - 1];
        assert sol[k + 1] == w[j - 1];
      } else {
        assert r[i] == w[i - 1] && r[j] == w[j - 1];
      }
    }
  }

  /** `handlePieceRestore(pieceId)`: every placement of the piece leaves the
      solution, the rest keep their order, and only that piece becomes
      available again. */
  function HandlePieceRestore(st: AppState, pieceId: int): (r: AppState)
    ensures r.boardData == st.boardData && r.dragged == st.dragged
    ensures forall q :: q in r.solution <==> q in st.solution && q.pieceId != pieceId
    ensures r.pieces == SetUsed(st.pieces, pieceId, false)
  {
    st.(solution := Without(st.solution, pieceId), pieces := SetUsed(st.pieces, pieceId, false))
  }

  /** Taking a piece back keeps the invariants of manual play. */
  lemma RestoreKeepsConsistent(st: AppState, pieceId: int)
    requires Consistent(st)
    ensures Consistent(HandlePieceRestore(st, pieceId))
  {
    WithoutDisjoint(st.solution, pieceId);
  }

  /** A piece without placements: the solution does not change. */
  lemma RestoreUnplaced(st: AppState, pieceId: int)
    requires forall k :: 0 <= k < |st.solution| ==> st.solution[k].pieceId != pieceId
    ensures HandlePieceRestore(st, pieceId).solution == st.solution
  {
    WithoutNothing(st.solution, pieceId);
  }

  /** Restore undoes a drop: dropping a piece that is not on the board and
      then taking it back leaves the solution as it was and the piece not used. */
  lemma RestoreUndoesDrop(st: AppState, row: int, col: int)
    requires Decide(st, row, col) == Placed
    requires forall k :: 0 <= k < |st.solution| ==> st.solution[k].pieceId != st.dragged.value.id
    ensures var p := st.dragged.value;
            var r := HandlePieceRestore(HandleDrop(st, row, col), p.id);
            r.solution == st.solution
            && forall i :: 0 <= i < |st.pieces| && st.pieces[i].id == p.id ==> !r.pieces[i].used
  {
    var p := st.dragged.value;
    var q := UiPlacement(p.id, Candidates(p, row, col));
    WithoutConcat(st.solution, [q], p.id);
    WithoutNothing(st.solution, p.id);
    assert Without([q], p.id) == [];
  }

  // ---- replacing the whole solution ------------------------------------------

  /** `handleSolve`: the server's answer replaces the solution; the pieces,
      including their `used` flags, are left as they were. */
  function HandleSolve(st: AppState, answer: seq<UiPlacement>): (r: AppState)
    ensures r.solution == answer
    ensures r.pieces == st.pieces && r.boardData == st.boardData && r.dragged == st.dragged
  {
    st.(solution := answer)
  }

  /** The front end's placements carry, in order, the cells of the response entries. */
  predicate SameCells(answer: seq<UiPlacement>, res: seq<Controllers.PlacementDto>) {
    |answer| == |res| && forall k :: 0 <= k < |res| ==> answer[k].cells == res[k].cells
  }

  /** When the board shown is the one `getBoard` lists and the answer carries
      the cells of the server's `solve` response, the auto-solved state is
      consistent: its placements do not overlap, never cover a target and stay
      on the board. */
  lemma SolveKeepsConsistent(st: AppState, c: Controllers.Controller, answer: seq<UiPlacement>)
    requires forall i, j :: 0 <= i < j < |c.pieces| ==> c.pieces[i].id != c.pieces[j].id
    requires st.boardData == Controllers.GetBoard(c.board)
    requires SameCells(answer, Controllers.SolveAfterGetPieces(c))
    ensures Consistent(HandleSolve(st, answer))
  {
    AnswerDisjoint(c, answer);
    AnswerFillable(c, answer);
    FillableConsistent(c.board, answer);
  }

  /** The answer's placements share no cell, as the response's entries do not. */
  lemma AnswerDisjoint(c: Controllers.Controller, answer: seq<UiPlacement>)
    requires forall i, j :: 0 <= i < j < |c.pieces| ==> c.pieces[i].id != c.pieces[j].id
    requires SameCells(answer, Controllers.SolveAfterGetPieces(c))
    ensures Disjoint(answer)
  {
    var res := Controllers.SolveAfterGetPieces(c);
    Controllers.SolveResponseCovers(c);
    forall i, j | 0 <= i < j < |answer| ensures NoCommon(answer[i].cells, answer[j].cells) {
      assert answer[i].cells == res[i].cells && answer[j].cells == res[j].cells;
    }
  }

  /** Every cell of the answer is fillable, as every cell of the response is. */
  lemma AnswerFillable(c: Controllers.Controller, answer: seq<UiPlacement>)
    requires forall i, j :: 0 <= i < j < |c.pieces| ==> c.pieces[i].id != c.pieces[j].id
    requires SameCells(answer, Controllers.SolveAfterGetPieces(c))
    ensures forall q, x :: q in answer && x in q.cells ==> IsFillable(c.board, x.row, x.col)
  {
    Controllers.SolveResponseFillable(c);
    FillableCarriesOver(c.board, answer, Controllers.SolveAfterGetPieces(c));
  }

  /** Entries with the same cells as a fillable response are fillable too. */
  lemma FillableCarriesOver(b: Board, answer: seq<UiPlacement>, res: seq<Controllers.PlacementDto>)
    requires SameCells(answer, res) && Controllers.CellsFillable(b, res)
    ensures forall q, x :: q in answer && x in q.cells ==> IsFillable(b, x.row, x.col)
  {
    forall q, x | q in answer && x in q.cells ensures IsFillable(b, x.row, x.col) {
      var k :| 0 <= k < |answer| && answer[k] == q;
      assert x in res[k].cells;
    }
  }

  /** Placements on fillable cells stay on the listed board and avoid its targets. */
  lemma FillableConsistent(b: Board, sol: seq<UiPlacement>)
    requires forall q, x :: q in sol && x in q.cells ==> IsFillable(b, x.row, x.col)
    ensures AvoidsTargets(Controllers.GetBoard(b), sol) && StaysOnBoard(Controllers.GetBoard(b), sol)
  {
    forall q, x | q in sol && x in q.cells
      ensures OnBoard(Controllers.GetBoard(b), x) && !IsTarget(Controllers.GetBoard(b), x)
    {
      FillableListed(b, x);
    }
  }

  /** A fillable cell appears in the `getBoard` listing, and never as a target. */
  lemma FillableListed(b: Board, x: Cell)
    requires IsFillable(b, x.row, x.col)
    ensures OnBoard(Controllers.GetBoard(b), x) && !IsTarget(Controllers.GetBoard(b), x)
  {
    var data := Controllers.GetBoard(b);
    Controllers.GetBoardFillable(b, x);
    forall k | 0 <= k < |data| && Controllers.PosOf(data[k]) == x ensures data[k].state != Target {
      assert Controllers.Describes(b, data[k]);
    }
  }

  /** `handleDateChange`: the solution is emptied and the board is the one
      fetched after the server moved the targets. */
  function HandleDateChange(st: AppState, newBoard: seq<BoardCell>): (r: AppState)
    ensures r.solution == [] && r.boardData == newBoard
    ensures r.pieces == st.pieces && r.dragged == st.dragged
  {
    st.(solution := [], boardData := newBoard)
  }

  /** Whatever the new board is, emptying the solution makes manual play
      consistent again. */
  lemma DateChangeConsistent(st: AppState, newBoard: seq<BoardCell>)
    ensures Consistent(HandleDateChange(st, newBoard))
  {
  }
}
