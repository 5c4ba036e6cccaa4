/** The back-end board (`Board.java`): a rectangular grid of cell states with
    a label per position. Every mutating method of the Java class becomes a
    function from the old board to the new one; exceptions become `Err`. */
module Boards {
  import opened Results
  import opened Cells

  datatype CellState = OffBoard | Fillable | Target | Blocked

  /** A possibly-null Java `String` label. */
  type Label = Option<string>

  datatype BoardError =
    | EmptyShape                 // asciiShape is empty
    | RaggedShape                // asciiShape rows of different lengths
    | LabelRowCount              // cellLabels has the wrong number of rows
    | LabelColCount              // some cellLabels row has the wrong length
    | NullLabel(at: Cell)        // a '#' position without a label
    | InvalidCell(at: Cell)      // coordinate outside the grid
    | TargetCell(at: Cell)       // block() on a TARGET cell
    | OffBoardCell(at: Cell)     // block() on an OFF_BOARD cell
    | AlreadyBlocked(at: Cell)   // block() on a BLOCKED cell
    | NotFillable(at: Cell)      // setTarget() on anything but a FILLABLE cell

  datatype Board = Board(rows: nat, cols: nat, grid: seq<seq<CellState>>, labels: seq<seq<Label>>)

  /** Both arrays are rows x cols, as the Java constructor allocates them. */
  predicate Valid(b: Board) {
    |b.grid| == b.rows && |b.labels| == b.rows
    && (forall r :: 0 <= r < b.rows ==> |b.grid[r]| == b.cols)
    && (forall r :: 0 <= r < b.rows ==> |b.labels[r]| == b.cols)
  }

  predicate InRange(b: Board, x: Cell) {
    0 <= x.row < b.rows && 0 <= x.col < b.cols
  }

  /** The state at a coordinate; positions outside the arrays read as OFF_BOARD. */
  function StateAt(b: Board, x: Cell): CellState {
    if 0 <= x.row < |b.grid| && 0 <= x.col < |b.grid[x.row]| then b.grid[x.row][x.col] else OffBoard
  }

  /** The label at a coordinate of a label grid; positions outside it read as null. */
  function LabelIn(labels: seq<seq<Label>>, x: Cell): Label {
    if 0 <= x.row < |labels| && 0 <= x.col < |labels[x.row]| then labels[x.row][x.col] else None
  }

  function LabelAt(b: Board, x: Cell): Label {
    LabelIn(b.labels, x)
  }

  /** A board whose states are given by `f` and whose size and labels are those of `b`. */
  function Rebuild(b: Board, f: Cell -> CellState): (res: Board)
    requires Valid(b)
    ensures Valid(res) && res.rows == b.rows && res.cols == b.cols && res.labels == b.labels
    ensures forall x :: InRange(b, x) ==> StateAt(res, x) == f(x)
    ensures forall x :: !InRange(b, x) ==> StateAt(res, x) == OffBoard
  {
    Board(b.rows, b.cols, seq(b.rows, r => seq(b.cols, c => f(Cell(r, c)))), b.labels)
  }

  /** Two valid boards that agree on size, labels and every state are equal. */
  lemma Extensionality(a: Board, b: Board)
    requires Valid(a) && Valid(b)
    requires a.rows == b.rows && a.cols == b.cols && a.labels == b.labels
    requires forall x :: StateAt(a, x) == StateAt(b, x)
    ensures a == b
  {
    forall r | 0 <= r < a.rows ensures a.grid[r] == b.grid[r] {
      forall c | 0 <= c < a.cols ensures a.grid[r][c] == b.grid[r][c] {
        assert StateAt(a, Cell(r, c)) == StateAt(b, Cell(r, c));
      }
    }
  }

  // ---- construction ----------------------------------------------------

  predicate Rectangular(shape: seq<string>) {
    |shape| > 0 && forall r :: 0 <= r < |shape| ==> |shape[r]| == |shape[0]|
  }

  predicate LabelsFit(shape: seq<string>, cellLabels: seq<seq<Label>>)
    requires Rectangular(shape)
  {
    |cellLabels| == |shape| && forall r :: 0 <= r < |cellLabels| ==> |cellLabels[r]| == |shape[0]|
  }

  /** A '#' position of the template whose label is null. */
  predicate MissingLabel(shape: seq<string>, cellLabels: seq<seq<Label>>, x: Cell) {
    0 <= x.row < |shape| && 0 <= x.col < |shape[x.row]| && shape[x.row][x.col] == '#'
    && x.row < |cellLabels| && x.col < |cellLabels[x.row]| && cellLabels[x.row][x.col].None?
  }

  /** The Java constructor `Board(asciiShape, cellLabels)`: checks in source
      order, then FILLABLE for '#' and OFF_BOARD for anything else. */
  function Create(shape: seq<string>, cellLabels: seq<seq<Label>>): (res: Result<Board, BoardError>)
    ensures |shape| == 0 ==> res == Err(EmptyShape)
    ensures |shape| > 0 && !Rectangular(shape) ==> res == Err(RaggedShape)
    ensures Rectangular(shape) && |cellLabels| != |shape| ==> res == Err(LabelRowCount)
    ensures Rectangular(shape) && |cellLabels| == |shape| && !LabelsFit(shape, cellLabels) ==> res == Err(LabelColCount)
    ensures res.Err? && res.error.NullLabel? ==>
      MissingLabel(shape, cellLabels, res.error.at)
      && forall y :: Before(y, res.error.at) ==> !MissingLabel(shape, cellLabels, y)
    ensures res.Ok? <==>
      Rectangular(shape) && LabelsFit(shape, cellLabels) && forall x :: !MissingLabel(shape, cellLabels, x)
    ensures res.Ok? ==>
      var b := res.value;
      Valid(b) && b.rows == |shape| && b.cols == |shape[0]| && b.labels == cellLabels
      && forall x :: InRange(b, x) ==> StateAt(b, x) == (if shape[x.row][x.col] == '#' then Fillable else OffBoard)
  {
    if |shape| == 0 then Err(EmptyShape)
    else if !Rectangular(shape) then Err(RaggedShape)
    else if |cellLabels| != |shape| then Err(LabelRowCount)
    else if !LabelsFit(shape, cellLabels) then Err(LabelColCount)
    else
      var rows, cols := |shape|, |shape[0]|;
      assert forall x :: MissingLabel(shape, cellLabels, x) ==> InGrid(rows, cols, x);
      match FindFirst(rows, cols, x => MissingLabel(shape, cellLabels, x))
      case Some(x) => Err(NullLabel(x))
      case None =>
        Ok(Board(rows, cols,
                 seq(rows, r requires 0 <= r < rows =>
                   seq(cols, c requires 0 <= c < cols => if shape[r][c] == '#' then Fillable else OffBoard)),
                 cellLabels))
  }

  /** A freshly built board has only FILLABLE and OFF_BOARD cells. */
  lemma CreateHasNoTargetOrBlocked(shape: seq<string>, cellLabels: seq<seq<Label>>, x: Cell)
    requires Create(shape, cellLabels).Ok?
    ensures StateAt(Create(shape, cellLabels).value, x) in {Fillable, OffBoard}
  {
  }

  // ---- queries ---------------------------------------------------------

  predicate IsFillableCell(b: Board, x: Cell) {
    InRange(b, x) && StateAt(b, x) == Fillable
  }

  /** Java `isFillable(r, c)`: bounds-checked, never throws. */
  function IsFillable(b: Board, r: int, c: int): bool {
    0 <= r < b.rows && 0 <= c < b.cols && StateAt(b, Cell(r, c)) == Fillable
  }

  /** Java `getAllFillableCells()`: the FILLABLE coordinates in row-major order. */
  function AllFillableCells(b: Board): (s: seq<Cell>)
    ensures forall x :: x in s <==> IsFillable(b, x.row, x.col)
    ensures forall i, j :: 0 <= i < j < |s| ==> Before(s[i], s[j])
  {
    Scan(b.rows, b.cols, x => IsFillableCell(b, x))
  }

  /** Row-major order has no repeats, so the fillable list has no duplicates. */
  lemma AllFillableCellsDistinct(b: Board)
    ensures forall i, j :: 0 <= i < j < |AllFillableCells(b)| ==> AllFillableCells(b)[i] != AllFillableCells(b)[j]
  {
  }

  /** Java `findCellByLabel(label)`: the first FILLABLE cell carrying that label;
      null for a null argument or when nothing matches. */
  function FindCellByLabel(b: Board, wanted: Label): (res: Option<Cell>)
    ensures wanted.None? ==> res.None?
    ensures res.Some? ==> IsFillable(b, res.value.row, res.value.col) && LabelAt(b, res.value) == wanted
    ensures res.Some? ==> forall y: Cell :: Before(y, res.value) && IsFillable(b, y.row, y.col) ==> LabelAt(b, y) != wanted
    ensures wanted.Some? && res.None? ==> forall y: Cell :: IsFillable(b, y.row, y.col) ==> LabelAt(b, y) != wanted
  {
    if wanted.None? then None
    else
      var res := FindFirst(b.rows, b.cols, x => IsFillableCell(b, x) && LabelAt(b, x) == wanted);
      assert forall y: Cell :: IsFillable(b, y.row, y.col) ==> InGrid(b.rows, b.cols, y);
      res
  }

  /** The label search agrees with the fillable list: it returns the first
      listed cell carrying the label. */
  lemma FindCellByLabelIsFirstListed(b: Board, l: string)
    ensures var s := AllFillableCells(b);
      match FindCellByLabel(b, Some(l))
      case None => forall i :: 0 <= i < |s| ==> LabelAt(b, s[i]) != Some(l)
      case Some(x) => exists k :: 0 <= k < |s| && s[k] == x
                        && forall i :: 0 <= i < k ==> LabelAt(b, s[i]) != Some(l)
  {
    var s := AllFillableCells(b);
    match FindCellByLabel(b, Some(l))
    case None =>
    case Some(x) =>
      var k :| 0 <= k < |s| && s[k] == x;
      forall i | 0 <= i < k ensures LabelAt(b, s[i]) != Some(l) {
        assert Before(s[i], s[k]);
      }
  }

  /** Java `getCellState(r, c)`. */
  function GetCellState(b: Board, r: int, c: int): (res: Result<CellState, BoardError>)
    ensures res.Err? <==> !InRange(b, Cell(r, c))
    ensures res.Err? ==> res.error == InvalidCell(Cell(r, c))
    ensures res.Ok? ==> res.value == StateAt(b, Cell(r, c))
  {
    if !InRange(b, Cell(r, c)) then Err(InvalidCell(Cell(r, c))) else Ok(StateAt(b, Cell(r, c)))
  }

  /** Java `getLabel(r, c)`. */
  function GetLabel(b: Board, r: int, c: int): (res: Result<Label, BoardError>)
    ensures res.Err? <==> !InRange(b, Cell(r, c))
    ensures res.Ok? ==> res.value == LabelAt(b, Cell(r, c))
  {
    if !InRange(b, Cell(r, c)) then Err(InvalidCell(Cell(r, c))) else Ok(LabelAt(b, Cell(r, c)))
  }

  // ---- transitions -----------------------------------------------------

  /** `b` with the state at `at` replaced by `s`. */
  function SetState(b: Board, at: Cell, s: CellState): (res: Board)
    requires Valid(b) && InRange(b, at)
    ensures Valid(res) && res.rows == b.rows && res.cols == b.cols && res.labels == b.labels
    ensures StateAt(res, at) == s
    ensures forall x :: x != at ==> StateAt(res, x) == StateAt(b, x)
  {
    Rebuild(b, x => if x == at then s else StateAt(b, x))
  }

  /** Java `block(r, c)`: FILLABLE becomes BLOCKED; every other case throws. */
  function Block(b: Board, r: int, c: int): (res: Result<Board, BoardError>)
    requires Valid(b)
    ensures res.Ok? <==> IsFillable(b, r, c)
    ensures res.Ok? ==>
      Valid(res.value) && res.value.rows == b.rows && res.value.cols == b.cols && res.value.labels == b.labels
      && StateAt(res.value, Cell(r, c)) == Blocked
      && forall x :: x != Cell(r, c) ==> StateAt(res.value, x) == StateAt(b, x)
    ensures !InRange(b, Cell(r, c)) ==> res == Err(InvalidCell(Cell(r, c)))
    ensures InRange(b, Cell(r, c)) && StateAt(b, Cell(r, c)) == Target ==> res == Err(TargetCell(Cell(r, c)))
    ensures InRange(b, Cell(r, c)) && StateAt(b, Cell(r, c)) == OffBoard ==> res == Err(OffBoardCell(Cell(r, c)))
    ensures InRange(b, Cell(r, c)) && StateAt(b, Cell(r, c)) == Blocked ==> res == Err(AlreadyBlocked(Cell(r, c)))
  {
    var at := Cell(r, c);
    if !InRange(b, at) then Err(InvalidCell(at))
    else
      match StateAt(b, at)
      case Fillable => Ok(SetState(b, at, Blocked))
      case Target => Err(TargetCell(at))
      case OffBoard => Err(OffBoardCell(at))
      case Blocked => Err(AlreadyBlocked(at))
  }

  /** Java `setTarget(r, c)`: FILLABLE becomes TARGET; every other case throws. */
  function SetTarget(b: Board, r: int, c: int): (res: Result<Board, BoardError>)
    requires Valid(b)
    ensures res.Ok? <==> IsFillable(b, r, c)
    ensures res.Err? ==> res.error == NotFillable(Cell(r, c))
    ensures res.Ok? ==>
      Valid(res.value) && res.value.rows == b.rows && res.value.cols == b.cols && res.value.labels == b.labels
      && StateAt(res.value, Cell(r, c)) == Target
      && forall x :: x != Cell(r, c) ==> StateAt(res.value, x) == StateAt(b, x)
  {
    if IsFillable(b, r, c) then Ok(SetState(b, Cell(r, c), Target)) else Err(NotFillable(Cell(r, c)))
  }

  /** BLOCKED if currently FILLABLE (inside the grid), otherwise unchanged. */
  function BlockIfFillable(b: Board, x: Cell): (res: Board)
    requires Valid(b)
    ensures Valid(res) && res.rows == b.rows && res.cols == b.cols && res.labels == b.labels
    ensures forall y :: StateAt(res, y) == if y == x && IsFillableCell(b, y) then Blocked else StateAt(b, y)
  {
    if IsFillableCell(b, x) then SetState(b, x, Blocked) else b
  }

  /** Java `blockShape(shape, r0, c0)`: blocks each in-range FILLABLE cell among
      origin + offset, silently skipping the rest. */
  function BlockShape(b: Board, shape: seq<Cell>, r0: int, c0: int): (res: Board)
    requires Valid(b)
    ensures Valid(res) && res.rows == b.rows && res.cols == b.cols && res.labels == b.labels
    ensures forall x :: StateAt(res, x) == (if x in Translate(shape, r0, c0) && IsFillableCell(b, x) then Blocked else StateAt(b, x))
    decreases |shape|
  {
    if |shape| == 0 then b
    else
      var first := Cell(r0 + shape[0].row, c0 + shape[0].col);
      var b1 := BlockIfFillable(b, first);
      var res := BlockShape(b1, shape[1..], r0, c0);
      TranslateCons(shape, r0, c0);
      res
  }

  /** The translated shape is its translated first cell followed by the translated rest. */
  lemma TranslateCons(shape: seq<Cell>, r0: int, c0: int)
    requires |shape| > 0
    ensures forall x :: x in Translate(shape, r0, c0) <==>
      x == Cell(r0 + shape[0].row, c0 + shape[0].col) || x in Translate(shape[1..], r0, c0)
  {
    forall x ensures x in Translate(shape, r0, c0) <==>
      x == Cell(r0 + shape[0].row, c0 + shape[0].col) || x in Translate(shape[1..], r0, c0)
    {
      if x in Translate(shape, r0, c0) {
        var i :| 0 <= i < |shape| && Translate(shape, r0, c0)[i] == x;
        if i > 0 { assert Translate(shape[1..], r0, c0)[i - 1] == x; }
      }
      if x in Translate(shape[1..], r0, c0) {
        var i :| 0 <= i < |shape| - 1 && Translate(shape[1..], r0, c0)[i] == x;
        assert Translate(shape, r0, c0)[i + 1] == x;
      }
    }
  }

  /** Java `reset()`: TARGET and FILLABLE cells become FILLABLE; BLOCKED and
      OFF_BOARD cells and every label stay as they are. */
  function Reset(b: Board): (res: Board)
    requires Valid(b)
    ensures Valid(res) && res.rows == b.rows && res.cols == b.cols && res.labels == b.labels
    ensures forall x :: StateAt(b, x) in {Target, Fillable} ==> StateAt(res, x) == Fillable
    ensures forall x :: StateAt(b, x) in {Blocked, OffBoard} ==> StateAt(res, x) == StateAt(b, x)
  {
    Rebuild(b, x => if StateAt(b, x) == Target then Fillable else StateAt(b, x))
  }

  ghost predicate NoTargets(b: Board) {
    forall x :: StateAt(b, x) != Target
  }

  /** After a reset no TARGET cell is left. */
  lemma ResetClearsTargets(b: Board)
    requires Valid(b)
    ensures NoTargets(Reset(b))
  {
    forall x ensures StateAt(Reset(b), x) != Target {
      match StateAt(b, x)
      case Target =>
      case Fillable =>
      case Blocked =>
      case OffBoard =>
    }
  }

  /** Resetting twice is the same as resetting once. */
  lemma ResetIdempotent(b: Board)
    requires Valid(b)
    ensures Reset(Reset(b)) == Reset(b)
  {
    var r1 := Reset(b);
    forall x ensures StateAt(Reset(r1), x) == StateAt(r1, x) {
      assert StateAt(r1, x) in {Target, Fillable} || StateAt(r1, x) in {Blocked, OffBoard};
    }
    Extensionality(Reset(r1), r1);
  }

  /** Marking a target is undone by a reset. */
  lemma ResetAfterSetTarget(b: Board, r: int, c: int)
    requires Valid(b) && SetTarget(b, r, c).Ok?
    ensures Reset(SetTarget(b, r, c).value) == Reset(b)
  {
    var t := SetTarget(b, r, c).value;
    forall x ensures StateAt(Reset(t), x) == StateAt(Reset(b), x) {
      assert StateAt(b, x) in {Target, Fillable} || StateAt(b, x) in {Blocked, OffBoard};
      assert StateAt(t, x) in {Target, Fillable} || StateAt(t, x) in {Blocked, OffBoard};
    }
    Extensionality(Reset(t), Reset(b));
  }

  /** A freshly constructed board is already in its reset state. */
  lemma ResetOfCreated(shape: seq<string>, cellLabels: seq<seq<Label>>)
    requires Create(shape, cellLabels).Ok?
    ensures Reset(Create(shape, cellLabels).value) == Create(shape, cellLabels).value
  {
    var b := Create(shape, cellLabels).value;
    forall x ensures StateAt(Reset(b), x) == StateAt(b, x) {
      assert StateAt(b, x) in {Fillable, OffBoard};
    }
    Extensionality(Reset(b), b);
  }

  /** Blocking a cell removes exactly that cell from the fillable list. */
  lemma BlockRemovesFromFillable(b: Board, r: int, c: int)
    requires Valid(b) && Block(b, r, c).Ok?
    ensures var after := Block(b, r, c).value;
      forall x :: x in AllFillableCells(after) <==> x in AllFillableCells(b) && x != Cell(r, c)
  {
  }

  /** A TARGET or BLOCKED cell is never returned by the label search. */
  lemma FindNeverReturnsTargetOrBlocked(b: Board, wanted: Label)
    ensures FindCellByLabel(b, wanted).Some? ==>
      StateAt(b, FindCellByLabel(b, wanted).value) !in {Target, Blocked}
  {
  }

  /** On a freshly built board the fillable list is exactly the list of '#'
      positions of the template, which can be evaluated on a constant template. */
  lemma FillableCellsArePositions(shape: seq<string>, cellLabels: seq<seq<Label>>)
    requires Create(shape, cellLabels).Ok?
    ensures AllFillableCells(Create(shape, cellLabels).value) == Positions(shape, '#')
  {
    var b := Create(shape, cellLabels).value;
    PositionsSpec(shape, '#');
    forall x ensures x in AllFillableCells(b) <==> x in Positions(shape, '#') {
      if HasCharAt(shape, '#', x) { assert InRange(b, x); }
    }
    SortedCellsUnique(AllFillableCells(b), Positions(shape, '#'));
  }
}
