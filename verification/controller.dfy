/** The back-end controller (`SolverController.java`) without its HTTP layer:
    its fields are one immutable state, and each endpoint is a function of it.
    The date string is taken already split into month and day numbers. */
module Controllers {
  import opened Results
  import opened Cells
  import opened Boards
  import opened Pieces
  import opened Placements
  import Text
  import Definitions
  import Solvers

  /** The controller's fields: the board, the catalogue, the id-to-index map
      that `getPieces` fills, and the current target cells. */
  datatype Controller = Controller(board: Board, pieces: seq<Piece>, indexOf: map<string, int>, targetCells: seq<Cell>)

  datatype ControllerError =
    | MonthOutOfRange             // IllegalArgumentException for a month outside 1..12
    | TargetRejected(cause: BoardError) // setTarget threw

  /** The TARGET cells of `b` are exactly the listed ones. */
  ghost predicate TargetsAre(b: Board, ts: seq<Cell>) {
    forall x :: StateAt(b, x) == Target <==> x in ts
  }

  // ---- updateTargetDate --------------------------------------------------

  /** Java `updateTargetDate` after parsing: reject a month outside 1..12 with no
      change, reset the board, clear the target list, then mark the first cell
      labelled with the decimal day and the first labelled with the month
      abbreviation, giving up (with the board reset) if either label is missing. */
  function UpdateTargetDate(st: Controller, month: int, day: int): (res: Result<Controller, ControllerError>)
    requires Valid(st.board)
    ensures !(1 <= month <= 12) ==> res == Err(MonthOutOfRange)
    ensures 1 <= month <= 12 ==> res.Ok?
    ensures res.Ok? ==>
      var s := res.value;
      Valid(s.board) && s.board.rows == st.board.rows && s.board.cols == st.board.cols
      && s.board.labels == st.board.labels && s.pieces == st.pieces && s.indexOf == st.indexOf
    ensures res.Ok? ==> TargetsAre(res.value.board, res.value.targetCells)
    ensures res.Ok? ==> forall x :: x !in res.value.targetCells ==> StateAt(res.value.board, x) == StateAt(Reset(st.board), x)
    ensures res.Ok? && res.value.targetCells == [] ==>
      var b := Reset(st.board);
      (forall y: Cell :: IsFillable(b, y.row, y.col) ==> LabelAt(b, y) != Some(Text.IntToString(day)))
      || (forall y: Cell :: IsFillable(b, y.row, y.col) ==> LabelAt(b, y) != Some(Definitions.MonthLabels[month - 1]))
    ensures res.Ok? && res.value.targetCells != [] ==>
      var b := Reset(st.board);
      var ts := res.value.targetCells;
      |ts| == 2
      && IsFillable(b, ts[0].row, ts[0].col) && LabelAt(b, ts[0]) == Some(Text.IntToString(day))
      && IsFillable(b, ts[1].row, ts[1].col) && LabelAt(b, ts[1]) == Some(Definitions.MonthLabels[month - 1])
      && (forall y: Cell :: Before(y, ts[0]) && IsFillable(b, y.row, y.col) ==> LabelAt(b, y) != Some(Text.IntToString(day)))
      && (forall y: Cell :: Before(y, ts[1]) && IsFillable(b, y.row, y.col) ==> LabelAt(b, y) != Some(Definitions.MonthLabels[month - 1]))
  {
    if month < 1 || month > 12 then Err(MonthOutOfRange)
    else
      var b := Reset(st.board);
      ResetClearsTargets(st.board);
      var cleared := st.(board := b, targetCells := []);
      match FindCellByLabel(b, Some(Text.IntToString(day)))
      case None => Ok(cleared)
      case Some(t1) =>
        match FindCellByLabel(b, Some(Definitions.MonthLabels[month - 1]))
        case None => Ok(cleared)
        case Some(t2) =>
          Definitions.DayIsNotMonth(day, month);
          MarkBoth(cleared, t1, t2)
  }

  /** Marks `t1`, then `t2`, and records both as the targets; a rejection by
      the board would surface as `TargetRejected`, but two different fillable
      cells of a board without targets are always accepted. */
  function MarkBoth(st: Controller, t1: Cell, t2: Cell): (res: Result<Controller, ControllerError>)
    requires Valid(st.board) && NoTargets(st.board)
    requires IsFillable(st.board, t1.row, t1.col) && IsFillable(st.board, t2.row, t2.col)
    requires LabelAt(st.board, t1) != LabelAt(st.board, t2)
    ensures res.Ok? && res.value.targetCells == [t1, t2]
    ensures var s := res.value;
      Valid(s.board) && s.board.rows == st.board.rows && s.board.cols == st.board.cols
      && s.board.labels == st.board.labels && s.pieces == st.pieces && s.indexOf == st.indexOf
    ensures TargetsAre(res.value.board, [t1, t2])
    ensures forall x :: x !in [t1, t2] ==> StateAt(res.value.board, x) == StateAt(st.board, x)
  {
    MarkTwo(st.board, t1, t2);
    match SetTarget(st.board, t1.row, t1.col)
    case Err(e) => Err(TargetRejected(e))
    case Ok(b1) =>
      match SetTarget(b1, t2.row, t2.col)
      case Err(e) => Err(TargetRejected(e))
      case Ok(b2) => Ok(st.(board := b2, targetCells := [t1, t2]))
  }

  /** Marking two different fillable cells of a board without targets
      succeeds twice and makes exactly those two cells the targets. */
  lemma MarkTwo(b: Board, t1: Cell, t2: Cell)
    requires Valid(b) && NoTargets(b)
    requires IsFillable(b, t1.row, t1.col) && IsFillable(b, t2.row, t2.col)
    requires LabelAt(b, t1) != LabelAt(b, t2)
    ensures SetTarget(b, t1.row, t1.col).Ok?
    ensures SetTarget(SetTarget(b, t1.row, t1.col).value, t2.row, t2.col).Ok?
    ensures var b2 := SetTarget(SetTarget(b, t1.row, t1.col).value, t2.row, t2.col).value;
      Valid(b2) && b2.rows == b.rows && b2.cols == b.cols && b2.labels == b.labels
      && TargetsAre(b2, [t1, t2])
      && forall x :: x !in [t1, t2] ==> StateAt(b2, x) == StateAt(b, x)
  {
    var b1 := SetTarget(b, t1.row, t1.col).value;
    assert StateAt(b1, t2) == StateAt(b, t2);
    var b2 := SetTarget(b1, t2.row, t2.col).value;
    forall x ensures StateAt(b2, x) == Target <==> x in [t1, t2] {
      if x != t1 && x != t2 {
        assert StateAt(b2, x) == StateAt(b, x);
      }
    }
  }

  /** The board after an update resets to the same board as before it. */
  lemma ResetAfterUpdate(st: Controller, month: int, day: int)
    requires Valid(st.board) && 1 <= month <= 12
    ensures Reset(UpdateTargetDate(st, month, day).value.board) == Reset(st.board)
  {
    var b := Reset(st.board);
    ResetIdempotent(st.board);
    var after := UpdateTargetDate(st, month, day).value;
    if after.targetCells != [] {
      var t1 := after.targetCells[0];
      var t2 := after.targetCells[1];
      var b1 := SetTarget(b, t1.row, t1.col).value;
      assert after.board == SetTarget(b1, t2.row, t2.col).value;
      ResetAfterSetTarget(b1, t2.row, t2.col);
      ResetAfterSetTarget(b, t1.row, t1.col);
    }
  }

  /** An update reads the board only through its reset. */
  lemma UpdateReadsResetOnly(s1: Controller, s2: Controller, month: int, day: int)
    requires Valid(s1.board) && Valid(s2.board)
    requires Reset(s1.board) == Reset(s2.board)
    requires s1.pieces == s2.pieces && s1.indexOf == s2.indexOf
    ensures UpdateTargetDate(s1, month, day) == UpdateTargetDate(s2, month, day)
  {
  }

  /** Choosing the same date twice gives the same state as choosing it once. */
  lemma UpdateIdempotent(st: Controller, month: int, day: int)
    requires Valid(st.board)
    ensures UpdateTargetDate(st, month, day).Ok? ==>
      UpdateTargetDate(UpdateTargetDate(st, month, day).value, month, day) == UpdateTargetDate(st, month, day)
  {
    if 1 <= month <= 12 {
      var after := UpdateTargetDate(st, month, day).value;
      ResetAfterUpdate(st, month, day);
      UpdateReadsResetOnly(after, st, month, day);
    }
  }

  /** On the whole-year board a real date marks exactly its day and month cells;
      a day number that is not on the board leaves no target at all. */
  lemma UpdateOnWholeYearBoard(st: Controller, month: int, day: int)
    requires Valid(st.board) && Definitions.LayoutBoard(Reset(st.board)) && 1 <= month <= 12
    ensures var s := UpdateTargetDate(st, month, day).value;
      if 1 <= day <= 31 then
        s.targetCells == [Definitions.DayCell(day), Definitions.MonthCell(month)]
        && TargetsAre(s.board, [Definitions.DayCell(day), Definitions.MonthCell(month)])
      else
        s.targetCells == [] && NoTargets(s.board)
  {
    if 1 <= day <= 31 {
      UpdateOnRealDate(st, month, day);
    } else {
      UpdateOnMissingDay(st, month, day);
    }
  }

  lemma UpdateOnRealDate(st: Controller, month: int, day: int)
    requires Valid(st.board) && Definitions.LayoutBoard(Reset(st.board)) && 1 <= month <= 12 && 1 <= day <= 31
    ensures var s := UpdateTargetDate(st, month, day).value;
      s.targetCells == [Definitions.DayCell(day), Definitions.MonthCell(month)]
      && TargetsAre(s.board, [Definitions.DayCell(day), Definitions.MonthCell(month)])
  {
    var b := Reset(st.board);
    Definitions.FindMonth(b, month);
    Definitions.FindDay(b, day);
    Definitions.DayIsNotMonth(day, month);
    ResetClearsTargets(st.board);
    MarkTwo(b, Definitions.DayCell(day), Definitions.MonthCell(month));
  }

  lemma UpdateOnMissingDay(st: Controller, month: int, day: int)
    requires Valid(st.board) && Definitions.LayoutBoard(Reset(st.board)) && 1 <= month <= 12 && !(1 <= day <= 31)
    ensures var s := UpdateTargetDate(st, month, day).value;
      s.targetCells == [] && NoTargets(s.board)
  {
    Definitions.FindNoSuchDay(Reset(st.board), day);
  }

  /** `createWholeYearPuzzleBoard()`, which never returns null. */
  function FreshBoard(): (b: Board)
    ensures Definitions.WholeYearBoard() == Some(b)
    ensures Valid(b) && Reset(b) == b
  {
    Definitions.WholeYearBoardBuilt();
    ResetOfCreated(Definitions.WholeYearShape, Definitions.WholeYearLabels);
    Definitions.WholeYearBoard().value
  }

  /** The target-setting part of the Java constructor on board `b`: no reset
      and no month check (the calendar supplies 1..12). */
  function Start(b: Board, pieces: seq<Piece>, month: int, day: int): (st: Controller)
    requires Valid(b) && 1 <= month <= 12
    ensures Valid(st.board) && st.pieces == pieces && st.indexOf == map[]
  {
    var start := Controller(b, pieces, map[], []);
    match FindCellByLabel(b, Some(Text.IntToString(day)))
    case None => start
    case Some(t1) =>
      match FindCellByLabel(b, Some(Definitions.MonthLabels[month - 1]))
      case None => start
      case Some(t2) =>
        Definitions.DayIsNotMonth(day, month);
        var b1 := SetTarget(b, t1.row, t1.col).value;
        var b2 := SetTarget(b1, t2.row, t2.col).value;
        start.(board := b2, targetCells := [t1, t2])
  }

  /** On a board with no targets, the constructor's marking is exactly an update
      to the same date. */
  lemma StartIsUpdate(b: Board, pieces: seq<Piece>, month: int, day: int)
    requires Valid(b) && Reset(b) == b && 1 <= month <= 12
    ensures Start(b, pieces, month, day) == UpdateTargetDate(Controller(b, pieces, map[], []), month, day).value
  {
  }

  /** The controller after construction, given today's month and day: the
      whole-year board and the full catalogue, with today's targets marked. */
  function Initial(month: int, day: int): (st: Controller)
    requires 1 <= month <= 12
    ensures Valid(st.board) && st.pieces == Definitions.AllPieces && st.indexOf == map[]
  {
    Start(FreshBoard(), Definitions.AllPieces, month, day)
  }

  /** The constructor's catalogue is what `loadAllPieces()` builds. */
  lemma InitialPieces(month: int, day: int)
    requires 1 <= month <= 12
    ensures Definitions.LoadAllPieces() == Ok(Initial(month, day).pieces)
  {
    Definitions.LoadAllPiecesValue();
  }

  /** Construction is the same as applying today's date to the fresh board. */
  lemma InitialIsUpdate(month: int, day: int)
    requires 1 <= month <= 12
    ensures Initial(month, day) == UpdateTargetDate(Controller(FreshBoard(), Definitions.AllPieces, map[], []), month, day).value
  {
    StartIsUpdate(FreshBoard(), Definitions.AllPieces, month, day);
  }

  // ---- getBoard ----------------------------------------------------------

  /** One entry of the `getBoard` response. */
  datatype BoardCell = BoardCell(row: int, col: int, cellLabel: Label, state: CellState)

  function PosOf(bc: BoardCell): Cell {
    Cell(bc.row, bc.col)
  }

  /** The entry describes its own position on `b`. */
  predicate Describes(b: Board, bc: BoardCell) {
    InRange(b, PosOf(bc)) && bc.cellLabel == LabelAt(b, PosOf(bc)) && bc.state == StateAt(b, PosOf(bc))
  }

  /** The `BoardCell` built for position `x`. */
  function Entry(b: Board, x: Cell): BoardCell {
    BoardCell(x.row, x.col, LabelAt(b, x), StateAt(b, x))
  }

  /** Every position, as the nested loops visit them. */
  function AnyCell(x: Cell): bool {
    true
  }

  /** The row-major scan of a rows x cols grid from (r, c) visits every remaining position. */
  lemma {:induction false} ScanAllLength(rows: nat, cols: nat, r: nat, c: nat)
    requires c <= cols
    ensures |ScanFrom(rows, cols, AnyCell, r, c)| == if r >= rows then 0 else (rows - r) * cols - c
    decreases rows - r, cols - c
  {
    if r < rows {
      if c == cols {
        ScanAllLength(rows, cols, r + 1, 0);
        assert (rows - r) * cols == (rows - (r + 1)) * cols + cols;
      } else {
        ScanAllLength(rows, cols, r, c + 1);
      }
    }
  }

  /** The scan of every position lists the whole grid, rows * cols cells. */
  lemma ScanAll(b: Board)
    ensures |Scan(b.rows, b.cols, AnyCell)| == b.rows * b.cols
    ensures forall x :: x in Scan(b.rows, b.cols, AnyCell) ==> InGrid(b.rows, b.cols, x)
    ensures forall x :: InRange(b, x) ==> x in Scan(b.rows, b.cols, AnyCell)
  {
    var xs := Scan(b.rows, b.cols, AnyCell);
    ScanAllLength(b.rows, b.cols, 0, 0);
    forall x | InRange(b, x) ensures x in xs {
      assert AnyCell(x) && InGrid(b.rows, b.cols, x);
    }
  }

  /** One entry per listed position, in the same order. */
  function Entries(b: Board, xs: seq<Cell>): (cells: seq<BoardCell>)
    ensures |cells| == |xs| && forall k :: 0 <= k < |xs| ==> cells[k] == Entry(b, xs[k])
  {
    seq(|xs|, k requires 0 <= k < |xs| => Entry(b, xs[k]))
  }

  lemma EntriesDescribe(b: Board, xs: seq<Cell>)
    requires forall x :: x in xs ==> InGrid(b.rows, b.cols, x)
    ensures forall k :: 0 <= k < |xs| ==> Describes(b, Entries(b, xs)[k])
  {
    forall k | 0 <= k < |xs| ensures Describes(b, Entries(b, xs)[k]) {
      assert xs[k] in xs;
      assert PosOf(Entries(b, xs)[k]) == xs[k];
    }
  }

  lemma EntriesOrdered(b: Board, xs: seq<Cell>)
    requires forall i, j :: 0 <= i < j < |xs| ==> Before(xs[i], xs[j])
    ensures forall i, j :: 0 <= i < j < |xs| ==> Before(PosOf(Entries(b, xs)[i]), PosOf(Entries(b, xs)[j]))
  {
    forall i, j | 0 <= i < j < |xs| ensures Before(PosOf(Entries(b, xs)[i]), PosOf(Entries(b, xs)[j])) {
      assert PosOf(Entries(b, xs)[i]) == xs[i] && PosOf(Entries(b, xs)[j]) == xs[j];
    }
  }

  lemma EntriesComplete(b: Board, xs: seq<Cell>)
    requires forall x :: InRange(b, x) ==> x in xs
    ensures forall x :: InRange(b, x) ==> exists k :: 0 <= k < |xs| && PosOf(Entries(b, xs)[k]) == x
  {
    forall x | InRange(b, x) ensures exists k :: 0 <= k < |xs| && PosOf(Entries(b, xs)[k]) == x {
      var k :| 0 <= k < |xs| && xs[k] == x;
      assert PosOf(Entries(b, xs)[k]) == x;
    }
  }

  /** Java `getBoard()`: every position of the grid once, in row-major order,
      with its label and state. */
  function GetBoard(b: Board): (cells: seq<BoardCell>)
    ensures |cells| == b.rows * b.cols
    ensures forall k :: 0 <= k < |cells| ==> Describes(b, cells[k])
    ensures forall i, j :: 0 <= i < j < |cells| ==> Before(PosOf(cells[i]), PosOf(cells[j]))
    ensures forall x :: InRange(b, x) ==> exists k :: 0 <= k < |cells| && PosOf(cells[k]) == x
  {
    var xs := Scan(b.rows, b.cols, AnyCell);
    ScanAll(b);
    EntriesDescribe(b, xs);
    EntriesOrdered(b, xs);
    EntriesComplete(b, xs);
    Entries(b, xs)
  }

  /** A cell is fillable exactly when `getBoard` lists it as FILLABLE. */
  lemma GetBoardFillable(b: Board, x: Cell)
    ensures IsFillable(b, x.row, x.col) <==>
      exists k :: 0 <= k < |GetBoard(b)| && PosOf(GetBoard(b)[k]) == x && GetBoard(b)[k].state == Fillable
  {
    var cells := GetBoard(b);
    if IsFillable(b, x.row, x.col) {
      assert InRange(b, x);
      var k :| 0 <= k < |cells| && PosOf(cells[k]) == x;
      assert Describes(b, cells[k]);
    }
  }

  // ---- getPieces ---------------------------------------------------------

  /** One entry of the `getPieces` response: catalogue index, id and canonical shape. */
  datatype PieceDto = PieceDto(id: int, name: string, shape: seq<Cell>)

  /** Some piece from index i on has id `id`. */
  predicate Occurs(pieces: seq<Piece>, i: nat, id: string) {
    exists j :: i <= j < |pieces| && pieces[j].id == id
  }

  /** `k` is the last index from i on whose piece has id `id`. */
  predicate LastOf(pieces: seq<Piece>, i: nat, id: string, k: int) {
    i <= k < |pieces| && pieces[k].id == id && forall l :: k < l < |pieces| ==> pieces[l].id != id
  }

  /** The id-to-index table after registering pieces i onwards: for a repeated
      id the last index wins, and ids not among them keep their old entry. */
  function Register(m: map<string, int>, pieces: seq<Piece>, i: nat): (res: map<string, int>)
    requires i <= |pieces|
    ensures forall id :: id in res <==> id in m || Occurs(pieces, i, id)
    ensures forall id :: Occurs(pieces, i, id) ==> id in res && LastOf(pieces, i, id, res[id])
    ensures forall id :: id in m && !Occurs(pieces, i, id) ==> res[id] == m[id]
    decreases |pieces| - i
  {
    if i == |pieces| then m
    else
      var r := Register(m[pieces[i].id := i], pieces, i + 1);
      RegisterStep(m, pieces, i, r);
      r
  }

  /** One registration step: what holds of the table after pieces i+1 onwards,
      starting from `m` with piece i entered, holds of pieces i onwards from `m`. */
  lemma RegisterStep(m: map<string, int>, pieces: seq<Piece>, i: nat, r: map<string, int>)
    requires i < |pieces|
    requires forall id :: id in r <==> id in m[pieces[i].id := i] || Occurs(pieces, i + 1, id)
    requires forall id :: Occurs(pieces, i + 1, id) ==> id in r && LastOf(pieces, i + 1, id, r[id])
    requires forall id :: id in m[pieces[i].id := i] && !Occurs(pieces, i + 1, id) ==> r[id] == m[pieces[i].id := i][id]
    ensures forall id :: id in r <==> id in m || Occurs(pieces, i, id)
    ensures forall id :: Occurs(pieces, i, id) ==> id in r && LastOf(pieces, i, id, r[id])
    ensures forall id :: id in m && !Occurs(pieces, i, id) ==> r[id] == m[id]
  {
    var next: nat := i + 1;
    forall id ensures id in r <==> id in m || Occurs(pieces, i, id) {
      if Occurs(pieces, i + 1, id) {
        var j :| i + 1 <= j < |pieces| && pieces[j].id == id;
        assert Occurs(pieces, i, id);
      }
      if id == pieces[i].id {
        assert Occurs(pieces, i, id);
      }
      if Occurs(pieces, i, id) && !Occurs(pieces, i + 1, id) {
        var j :| i <= j < |pieces| && pieces[j].id == id;
        if j > i {
          assert Occurs(pieces, i + 1, id);
        }
      }
    }
    forall id | Occurs(pieces, i, id) ensures id in r && LastOf(pieces, i, id, r[id]) {
      if !Occurs(pieces, i + 1, id) {
        var j :| i <= j < |pieces| && pieces[j].id == id;
        assert j > i ==> Occurs(pieces, next, id);
        assert id == pieces[i].id && r[id] == i;
        forall l | i < l < |pieces| ensures pieces[l].id != id {
          assert pieces[l].id == id ==> Occurs(pieces, next, id);
        }
      }
    }
    forall id | id in m && !Occurs(pieces, i, id) ensures r[id] == m[id] {
      assert id == pieces[i].id ==> Occurs(pieces, i, id);
      assert Occurs(pieces, i + 1, id) ==> Occurs(pieces, i, id);
    }
  }

  function PieceDtos(pieces: seq<Piece>, i: nat): (dtos: seq<PieceDto>)
    requires i <= |pieces|
    ensures |dtos| == |pieces| - i
    ensures forall k :: 0 <= k < |dtos| ==> dtos[k] == PieceDto(i + k, pieces[i + k].id, pieces[i + k].canonical)
    decreases |pieces| - i
  {
    if i == |pieces| then [] else [PieceDto(i, pieces[i].id, pieces[i].canonical)] + PieceDtos(pieces, i + 1)
  }

  /** Java `getPieces()`: the catalogue numbered 0..n-1 with canonical shapes;
      as a side effect every id is mapped to its (last) catalogue index. */
  function GetPieces(st: Controller): (res: (Controller, seq<PieceDto>))
    ensures res.0 == st.(indexOf := Register(st.indexOf, st.pieces, 0))
    ensures |res.1| == |st.pieces|
    ensures forall i :: 0 <= i < |st.pieces| ==> res.1[i].id == i && res.1[i].name == st.pieces[i].id && res.1[i].shape == st.pieces[i].canonical
  {
    (st.(indexOf := Register(st.indexOf, st.pieces, 0)), PieceDtos(st.pieces, 0))
  }

  /** With distinct ids, the map sends each id to its own catalogue index. */
  lemma GetPiecesIndexes(st: Controller)
    requires forall i, j :: 0 <= i < j < |st.pieces| ==> st.pieces[i].id != st.pieces[j].id
    ensures var m := GetPieces(st).0.indexOf;
      forall i :: 0 <= i < |st.pieces| ==> st.pieces[i].id in m && m[st.pieces[i].id] == i
  {
    var m := GetPieces(st).0.indexOf;
    forall i | 0 <= i < |st.pieces| ensures st.pieces[i].id in m && m[st.pieces[i].id] == i {
      assert Occurs(st.pieces, 0, st.pieces[i].id);
      var k := m[st.pieces[i].id];
      assert st.pieces[k].id == st.pieces[i].id;
    }
  }

  // ---- solve -------------------------------------------------------------

  /** One entry of the `solve` response: catalogue index and covered cells. */
  datatype PlacementDto = PlacementDto(pieceIndex: int, cells: seq<Cell>)

  /** Every piece of the catalogue is in the id map: `getPieces` ran first. */
  predicate PiecesRegistered(st: Controller) {
    forall i :: 0 <= i < |st.pieces| ==> st.pieces[i].id in st.indexOf
  }

  function ToDtos(indexOf: map<string, int>, sol: seq<Placement>): (dtos: seq<PlacementDto>)
    requires forall k :: 0 <= k < |sol| ==> sol[k].pieceId in indexOf
    ensures |dtos| == |sol|
    ensures forall k :: 0 <= k < |sol| ==> dtos[k] == PlacementDto(indexOf[sol[k].pieceId], sol[k].covered)
  {
    if |sol| == 0 then [] else [PlacementDto(indexOf[sol[0].pieceId], sol[0].covered)] + ToDtos(indexOf, sol[1..])
  }

  /** A placement's piece is one of the catalogue's. */
  lemma SolutionIdsRegistered(st: Controller)
    requires PiecesRegistered(st)
    ensures Solvers.Solve(st.board, st.pieces).Some? ==>
      forall k :: 0 <= k < |Solvers.Solve(st.board, st.pieces).value| ==>
        Solvers.Solve(st.board, st.pieces).value[k].pieceId in st.indexOf
  {
    Solvers.SolveSound(st.board, st.pieces);
  }

  /** Java `solve()`: an empty list when there is no solution, otherwise one
      entry per placement with the piece's catalogue index. */
  function Solve(st: Controller): (res: seq<PlacementDto>)
    requires PiecesRegistered(st)
  {
    SolutionIdsRegistered(st);
    match Solvers.Solve(st.board, st.pieces)
    case None => []
    case Some(sol) => ToDtos(st.indexOf, sol)
  }

  /** Every piece of a solution is in the catalogue, found by its index after `getPieces`. */
  lemma SolutionIndexes(st: Controller)
    requires forall i, j :: 0 <= i < j < |st.pieces| ==> st.pieces[i].id != st.pieces[j].id
    requires Solvers.Solve(st.board, st.pieces).Some?
    ensures var m := GetPieces(st).0.indexOf;
      var sol := Solvers.Solve(st.board, st.pieces).value;
      forall k :: 0 <= k < |sol| ==>
        sol[k].pieceId in m && 0 <= m[sol[k].pieceId] < |st.pieces| && st.pieces[m[sol[k].pieceId]].id == sol[k].pieceId
  {
    var m := GetPieces(st).0.indexOf;
    var sol := Solvers.Solve(st.board, st.pieces).value;
    GetPiecesIndexes(st);
    Solvers.SolveSound(st.board, st.pieces);
    forall k | 0 <= k < |sol|
      ensures sol[k].pieceId in m && 0 <= m[sol[k].pieceId] < |st.pieces| && st.pieces[m[sol[k].pieceId]].id == sol[k].pieceId
    {
      assert Solvers.Legal(st.board, st.pieces, sol[k]);
      var j :| 0 <= j < |st.pieces| && st.pieces[j].id == sol[k].pieceId;
      assert m[st.pieces[j].id] == j;
    }
  }

  /** After `getPieces`, a `solve` response is empty exactly when the solver
      finds nothing (or an empty list); otherwise entry k carries the catalogue
      index of the k-th placement's piece and exactly its covered cells. */
  lemma SolveResponse(st: Controller)
    requires forall i, j :: 0 <= i < j < |st.pieces| ==> st.pieces[i].id != st.pieces[j].id
    ensures PiecesRegistered(GetPieces(st).0)
    ensures var res := Solve(GetPieces(st).0);
      match Solvers.Solve(st.board, st.pieces)
      case None => res == []
      case Some(sol) =>
        |res| == |sol|
        && forall k :: 0 <= k < |sol| ==>
             0 <= res[k].pieceIndex < |st.pieces| && st.pieces[res[k].pieceIndex].id == sol[k].pieceId
             && res[k].cells == sol[k].covered
  {
    GetPiecesIndexes(st);
    if Solvers.Solve(st.board, st.pieces).Some? {
      SolutionIndexes(st);
    }
  }

  /** `getPieces` registers every catalogue id. */
  lemma GetPiecesRegisters(st: Controller)
    ensures PiecesRegistered(GetPieces(st).0)
  {
    forall i | 0 <= i < |st.pieces| ensures st.pieces[i].id in GetPieces(st).0.indexOf {
      assert Occurs(st.pieces, 0, st.pieces[i].id);
    }
  }

  /** The `solve` response the front end receives: it loads the pieces on
      mount, so `getPieces` has run before `solve`. */
  function SolveAfterGetPieces(st: Controller): seq<PlacementDto> {
    GetPiecesRegisters(st);
    Solve(GetPieces(st).0)
  }

  /** Every cell named by the response is fillable on `b`. */
  ghost predicate CellsFillable(b: Board, res: seq<PlacementDto>) {
    forall k, x :: 0 <= k < |res| && x in res[k].cells ==> IsFillable(b, x.row, x.col)
  }

  /** Every fillable cell of `b` is named by some entry of the response. */
  ghost predicate CoversFillable(b: Board, res: seq<PlacementDto>) {
    forall x: Cell :: IsFillable(b, x.row, x.col) ==> exists k :: 0 <= k < |res| && x in res[k].cells
  }

  /** No cell is named by two entries of the response. */
  ghost predicate NoCellTwice(res: seq<PlacementDto>) {
    forall k1, k2, x :: 0 <= k1 < k2 < |res| && x in res[k1].cells ==> x !in res[k2].cells
  }

  /** Every cell of a `solve` response is a fillable cell of the board. */
  lemma SolveResponseFillable(st: Controller)
    requires forall i, j :: 0 <= i < j < |st.pieces| ==> st.pieces[i].id != st.pieces[j].id
    ensures PiecesRegistered(GetPieces(st).0)
    ensures CellsFillable(st.board, Solve(GetPieces(st).0))
  {
    SolveResponse(st);
    var res := Solve(GetPieces(st).0);
    if res != [] {
      var sol := Solvers.Solve(st.board, st.pieces).value;
      Solvers.SolutionLegalSound(st.board, st.pieces);
      forall k, x | 0 <= k < |res| && x in res[k].cells ensures IsFillable(st.board, x.row, x.col) {
        assert x in sol[k].covered;
        Solvers.GenerateAllPlacementsSpec(st.board, st.pieces, sol[k]);
        Solvers.GeneratedPlacementCells(st.board, st.pieces, sol[k]);
      }
    }
  }

  /** A non-empty `solve` response covers each fillable cell of the board with
      exactly one entry. */
  lemma SolveResponseCovers(st: Controller)
    requires forall i, j :: 0 <= i < j < |st.pieces| ==> st.pieces[i].id != st.pieces[j].id
    ensures PiecesRegistered(GetPieces(st).0)
    ensures var res := Solve(GetPieces(st).0);
      res != [] ==> CoversFillable(st.board, res) && NoCellTwice(res)
  {
    SolveResponse(st);
    var res := Solve(GetPieces(st).0);
    if res != [] {
      var sol := Solvers.Solve(st.board, st.pieces).value;
      Solvers.SolveSound(st.board, st.pieces);
      assert forall k :: 0 <= k < |sol| ==> res[k].cells == sol[k].covered;
      forall x: Cell | IsFillable(st.board, x.row, x.col) ensures exists k :: 0 <= k < |res| && x in res[k].cells {
        var k :| 0 <= k < |sol| && x in sol[k].covered;
        assert x in res[k].cells;
      }
    }
  }
}
