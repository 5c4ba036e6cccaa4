/** The constant data of `Defintion.java`: the board factory with its extra
    checks, the 7 x 9 whole-year board with its month and day labels, and the
    piece catalogues. Facts about the constants are established by evaluation. */
module Definitions {
  import opened Results
  import opened Text
  import opened Cells
  import opened Boards
  import opened Pieces

  datatype DefinitionError =
    | ShapeLabelMismatch         // asciiShape and labels differ in row count
    | NoRows                     // asciiShape.get(0) on an empty list
    | UnequalRows                // rows of different lengths
    | Rejected(cause: BoardError) // the Board constructor threw

  /** Java `createBoard(asciiShape, labels)`: its own checks first, then the
      `Board` constructor, whose rejections pass through. */
  function CreateBoard(shape: seq<string>, cellLabels: seq<seq<Label>>): (res: Result<Board, DefinitionError>)
    ensures |shape| != |cellLabels| ==> res == Err(ShapeLabelMismatch)
    ensures |shape| == |cellLabels| == 0 ==> res == Err(NoRows)
    ensures |shape| == |cellLabels| > 0 && !Rectangular(shape) ==> res == Err(UnequalRows)
    ensures res.Ok? <==> |shape| == |cellLabels| && Create(shape, cellLabels).Ok?
    ensures res.Ok? ==> Create(shape, cellLabels) == Ok(res.value)
    ensures res.Err? && res.error.Rejected? ==>
      Create(shape, cellLabels) == Err(res.error.cause)
      && (res.error.cause.LabelColCount? || res.error.cause.NullLabel?)
  {
    if |shape| != |cellLabels| then Err(ShapeLabelMismatch)
    else if |shape| == 0 then Err(NoRows)
    else if !Rectangular(shape) then Err(UnequalRows)
    else match Create(shape, cellLabels)
      case Ok(b) => Ok(b)
      case Err(e) => Err(Rejected(e))
  }

  // ---- the whole-year board --------------------------------------------

  const WholeYearShape: seq<string> := [
    ".######..",
    ".######..",
    ".#######.",
    ".#######.",
    ".#######.",
    ".#######.",
    "...###..."]

  const WholeYearLabels: seq<seq<Label>> := [
    [None, Some("Jan"), Some("Feb"), Some("Mar"), Some("Apr"), Some("May"), Some("Jun"), None, None],
    [None, Some("Jul"), Some("Aug"), Some("Sep"), Some("Oct"), Some("Nov"), Some("Dec"), None, None],
    [None, Some("1"), Some("2"), Some("3"), Some("4"), Some("5"), Some("6"), Some("7"), None],
    [None, Some("8"), Some("9"), Some("10"), Some("11"), Some("12"), Some("13"), Some("14"), None],
    [None, Some("15"), Some("16"), Some("17"), Some("18"), Some("19"), Some("20"), Some("21"), None],
    [None, Some("22"), Some("23"), Some("24"), Some("25"), Some("26"), Some("27"), Some("28"), None],
    [None, None, None, Some("29"), Some("30"), Some("31"), None, None, None]]

  /** The month labels of the board, January first. */
  const MonthLabels: seq<string> := ["Jan", "Feb", "Mar", "Apr", "May", "Jun", "Jul", "Aug", "Sep", "Oct", "Nov", "Dec"]

  /** Java `createWholeYearPuzzleBoard()`: null (here `None`) if construction fails. */
  function WholeYearBoard(): Option<Board> {
    match CreateBoard(WholeYearShape, WholeYearLabels)
    case Ok(b) => Some(b)
    case Err(_) => None
  }

  /** The cells of row `r` from column `a` to column `b`, left to right. */
  function Run(r: int, a: int, b: int): (s: seq<Cell>)
    ensures |s| == if a > b then 0 else b - a + 1
    ensures forall x :: x in s <==> x.row == r && a <= x.col <= b
    decreases b - a
  {
    if a > b then [] else [Cell(r, a)] + Run(r, a + 1, b)
  }

  /** Where the board puts day `d` (1..31): four rows of seven, then 29..31 centred. */
  function DayCell(d: int): Cell {
    if d <= 28 then Cell(2 + (d - 1) / 7, 1 + (d - 1) % 7) else Cell(6, d - 26)
  }

  /** Where the board puts month `m` (1..12): two rows of six. */
  function MonthCell(m: int): Cell {
    Cell((m - 1) / 6, 1 + (m - 1) % 6)
  }

  /** The '#' cells of the whole-year board, row by row. */
  predicate InLayout(x: Cell) {
    (0 <= x.row <= 1 && 1 <= x.col <= 6)
    || (2 <= x.row <= 5 && 1 <= x.col <= 7)
    || (x.row == 6 && 3 <= x.col <= 5)
  }

  lemma LayoutRow0()
    ensures RowPositions(WholeYearShape[0], '#', 0, 0) == Run(0, 1, 6)
  {
  }

  lemma LayoutRow1()
    ensures RowPositions(WholeYearShape[1], '#', 1, 0) == Run(1, 1, 6)
  {
  }

  lemma LayoutRow2()
    ensures RowPositions(WholeYearShape[2], '#', 2, 0) == Run(2, 1, 7)
  {
  }

  lemma LayoutRow3()
    ensures RowPositions(WholeYearShape[3], '#', 3, 0) == Run(3, 1, 7)
  {
  }

  lemma LayoutRow4()
    ensures RowPositions(WholeYearShape[4], '#', 4, 0) == Run(4, 1, 7)
  {
  }

  lemma LayoutRow5()
    ensures RowPositions(WholeYearShape[5], '#', 5, 0) == Run(5, 1, 7)
  {
  }

  lemma LayoutRow6()
    ensures RowPositions(WholeYearShape[6], '#', 6, 0) == Run(6, 3, 5)
  {
  }

  /** The template's '#' characters are exactly the layout cells. */
  lemma WholeYearHashCells()
    ensures forall x :: HasCharAt(WholeYearShape, '#', x) <==> InLayout(x)
  {
    var g := WholeYearShape;
    forall x ensures HasCharAt(g, '#', x) <==> InLayout(x) {
      if 0 <= x.row < 7 {
        RowPositionsSpec(g[x.row], '#', x.row, 0);
        if x.row == 0 { LayoutRow0(); }
        else if x.row == 1 { LayoutRow1(); }
        else if x.row == 2 { LayoutRow2(); }
        else if x.row == 3 { LayoutRow3(); }
        else if x.row == 4 { LayoutRow4(); }
        else if x.row == 5 { LayoutRow5(); }
        else { LayoutRow6(); }
      }
    }
  }

  /** Day `d` is written, in decimal, on the layout cell `DayCell(d)`. */
  predicate DayPlaced(d: int) {
    InLayout(DayCell(d)) && LabelIn(WholeYearLabels, DayCell(d)) == Some(IntToString(d))
  }

  lemma DaysPlaced0(d: int)
    requires 1 <= d <= 7
    ensures DayPlaced(d)
  {
    if d == 1 { assert DayCell(1) == Cell(2, 1) && IntToString(1) == "1"; }
    else if d == 2 { assert DayCell(2) == Cell(2, 2) && IntToString(2) == "2"; }
    else if d == 3 { assert DayCell(3) == Cell(2, 3) && IntToString(3) == "3"; }
    else if d == 4 { assert DayCell(4) == Cell(2, 4) && IntToString(4) == "4"; }
    else if d == 5 { assert DayCell(5) == Cell(2, 5) && IntToString(5) == "5"; }
    else if d == 6 { assert DayCell(6) == Cell(2, 6) && IntToString(6) == "6"; }
    else { assert d == 7; assert DayCell(7) == Cell(2, 7) && IntToString(7) == "7"; }
  }

  lemma DaysPlaced1(d: int)
    requires 8 <= d <= 14
    ensures DayPlaced(d)
  {
    if d == 8 { assert DayCell(8) == Cell(3, 1) && IntToString(8) == "8"; }
    else if d == 9 { assert DayCell(9) == Cell(3, 2) && IntToString(9) == "9"; }
    else if d == 10 { assert DayCell(10) == Cell(3, 3) && IntToString(10) == "10"; }
    else if d == 11 { assert DayCell(11) == Cell(3, 4) && IntToString(11) == "11"; }
    else if d == 12 { assert DayCell(12) == Cell(3, 5) && IntToString(12) == "12"; }
    else if d == 13 { assert DayCell(13) == Cell(3, 6) && IntToString(13) == "13"; }
    else { assert d == 14; assert DayCell(14) == Cell(3, 7) && IntToString(14) == "14"; }
  }

  lemma DaysPlaced2(d: int)
    requires 15 <= d <= 21
    ensures DayPlaced(d)
  {
    if d == 15 { assert DayCell(15) == Cell(4, 1) && IntToString(15) == "15"; }
    else if d == 16 { assert DayCell(16) == Cell(4, 2) && IntToString(16) == "16"; }
    else if d == 17 { assert DayCell(17) == Cell(4, 3) && IntToString(17) == "17"; }
    else if d == 18 { assert DayCell(18) == Cell(4, 4) && IntToString(18) == "18"; }
    else if d == 19 { assert DayCell(19) == Cell(4, 5) && IntToString(19) == "19"; }
    else if d == 20 { assert DayCell(20) == Cell(4, 6) && IntToString(20) == "20"; }
    else { assert d == 21; assert DayCell(21) == Cell(4, 7) && IntToString(21) == "21"; }
  }

  lemma DaysPlaced3(d: int)
    requires 22 <= d <= 28
    ensures DayPlaced(d)
  {
    if d == 22 { assert DayCell(22) == Cell(5, 1) && IntToString(22) == "22"; }
    else if d == 23 { assert DayCell(23) == Cell(5, 2) && IntToString(23) == "23"; }
    else if d == 24 { assert DayCell(24) == Cell(5, 3) && IntToString(24) == "24"; }
    else if d == 25 { assert DayCell(25) == Cell(5, 4) && IntToString(25) == "25"; }
    else if d == 26 { assert DayCell(26) == Cell(5, 5) && IntToString(26) == "26"; }
    else if d == 27 { assert DayCell(27) == Cell(5, 6) && IntToString(27) == "27"; }
    else { assert d == 28; assert DayCell(28) == Cell(5, 7) && IntToString(28) == "28"; }
  }

  lemma DaysPlaced4(d: int)
    requires 29 <= d <= 31
    ensures DayPlaced(d)
  {
    if d == 29 { assert DayCell(29) == Cell(6, 3) && IntToString(29) == "29"; }
    else if d == 30 { assert DayCell(30) == Cell(6, 4) && IntToString(30) == "30"; }
    else { assert d == 31; assert DayCell(31) == Cell(6, 5) && IntToString(31) == "31"; }
  }

  lemma WholeYearDays(d: int)
    requires 1 <= d <= 31
    ensures InLayout(DayCell(d)) && LabelIn(WholeYearLabels, DayCell(d)) == Some(IntToString(d))
  {
    if d <= 7 { DaysPlaced0(d); }
    else if d <= 14 { DaysPlaced1(d); }
    else if d <= 21 { DaysPlaced2(d); }
    else if d <= 28 { DaysPlaced3(d); }
    else { DaysPlaced4(d); }
  }

  /** Month `m` is written, abbreviated, on the layout cell `MonthCell(m)`. */
  lemma WholeYearMonths(m: int)
    requires 1 <= m <= 12
    ensures InLayout(MonthCell(m)) && LabelIn(WholeYearLabels, MonthCell(m)) == Some(MonthLabels[m - 1])
  {
    assert m == 1 || m == 2 || m == 3 || m == 4 || m == 5 || m == 6 || m == 7 || m == 8 || m == 9 || m == 10
      || m == 11 || m == 12;
  }

  /** Every layout cell holds a day or a month. */
  lemma WholeYearCover(x: Cell)
    requires InLayout(x)
    ensures (x.row <= 1 && MonthCell(6 * x.row + x.col) == x)
         || (2 <= x.row && 1 <= LayoutDay(x) <= 31 && DayCell(LayoutDay(x)) == x)
  {
  }

  function LayoutDay(x: Cell): int {
    if x.row <= 5 then 7 * (x.row - 2) + x.col else x.col + 26
  }

  lemma MonthLabelsDistinct()
    ensures forall i, j :: 0 <= i < j < 12 ==> MonthLabels[i] != MonthLabels[j]
    ensures forall i :: 0 <= i < 12 ==> |MonthLabels[i]| > 0 && !IsDigit(MonthLabels[i][0]) && MonthLabels[i][0] != '-'
  {
  }

  /** A decimal day never spells a month abbreviation. */
  lemma DayIsNotMonth(d: int, m: int)
    requires 1 <= m <= 12
    ensures IntToString(d) != MonthLabels[m - 1]
  {
    MonthLabelsDistinct();
    assert IntToString(d)[0] == '-' || IsDigit(IntToString(d)[0]);
  }

  /** Month cells whose abbreviations agree are the same cell. */
  lemma UniqueAmongMonths(x: Cell, y: Cell)
    requires InLayout(x) && InLayout(y) && x.row <= 1 && y.row <= 1
    requires 1 <= 6 * x.row + x.col <= 12 && 1 <= 6 * y.row + y.col <= 12
    requires MonthLabels[6 * x.row + x.col - 1] == MonthLabels[6 * y.row + y.col - 1]
    ensures x == y
  {
    MonthIndexUnique(6 * x.row + x.col, 6 * y.row + y.col);
    MonthPositionInjective(x, y);
  }

  /** Two month cells with the same label carry the same abbreviation. */
  lemma SameMonthLabel(x: Cell, y: Cell)
    requires InLayout(x) && InLayout(y) && x.row <= 1 && y.row <= 1
    requires LabelIn(WholeYearLabels, x) == LabelIn(WholeYearLabels, y)
    ensures 1 <= 6 * x.row + x.col <= 12 && 1 <= 6 * y.row + y.col <= 12
    ensures MonthLabels[6 * x.row + x.col - 1] == MonthLabels[6 * y.row + y.col - 1]
  {
    MonthLabelAt(x);
    MonthLabelAt(y);
    var lx, ly := LabelIn(WholeYearLabels, x), LabelIn(WholeYearLabels, y);
    assert lx.value == ly.value;
  }

  /** Month cells with the same month number are the same cell. */
  lemma MonthPositionInjective(x: Cell, y: Cell)
    requires InLayout(x) && InLayout(y) && x.row <= 1 && y.row <= 1
    requires 6 * x.row + x.col == 6 * y.row + y.col
    ensures x == y
  {
    if x.row != y.row {
      assert false;
    }
  }

  /** The cell in row r <= 1, column c carries month 6r + c. */
  lemma MonthLabelAt(x: Cell)
    requires InLayout(x) && x.row <= 1
    ensures 1 <= 6 * x.row + x.col <= 12
    ensures LabelIn(WholeYearLabels, x) == Some(MonthLabels[6 * x.row + x.col - 1])
  {
    WholeYearCover(x);
    WholeYearMonths(6 * x.row + x.col);
  }

  /** Two months with the same abbreviation are the same month. */
  lemma MonthIndexUnique(m1: int, m2: int)
    requires 1 <= m1 <= 12 && 1 <= m2 <= 12 && MonthLabels[m1 - 1] == MonthLabels[m2 - 1]
    ensures m1 == m2
  {
    MonthLabelsDistinct();
  }

  lemma MonthNeverMatchesDay(x: Cell, y: Cell)
    requires InLayout(x) && InLayout(y) && x.row <= 1 && y.row > 1
    ensures LabelIn(WholeYearLabels, x) != LabelIn(WholeYearLabels, y)
  {
    WholeYearCover(x);
    WholeYearCover(y);
    WholeYearMonths(6 * x.row + x.col);
    WholeYearDays(LayoutDay(y));
    DayIsNotMonth(LayoutDay(y), 6 * x.row + x.col);
  }

  lemma UniqueAmongDays(x: Cell, y: Cell)
    requires InLayout(x) && InLayout(y) && x.row > 1 && y.row > 1
    requires LabelIn(WholeYearLabels, x) == LabelIn(WholeYearLabels, y)
    ensures x == y
  {
    WholeYearCover(x);
    WholeYearCover(y);
    WholeYearDays(LayoutDay(x));
    WholeYearDays(LayoutDay(y));
    IntToStringInjective(LayoutDay(x), LayoutDay(y));
  }

  /** No two layout cells carry the same label. */
  lemma WholeYearLabelsUnique(x: Cell, y: Cell)
    requires InLayout(x) && InLayout(y)
    requires LabelIn(WholeYearLabels, x) == LabelIn(WholeYearLabels, y)
    ensures x == y
  {
    if x.row <= 1 && y.row <= 1 {
      SameMonthLabel(x, y);
      UniqueAmongMonths(x, y);
    } else if x.row <= 1 {
      MonthNeverMatchesDay(x, y);
    } else if y.row <= 1 {
      MonthNeverMatchesDay(y, x);
    } else {
      UniqueAmongDays(x, y);
    }
  }

  /** `createWholeYearPuzzleBoard()` never takes its null branch: every '#'
      cell is labelled. The board is 7 x 9 and its fillable cells are the layout. */
  lemma WholeYearBoardBuilt()
    ensures WholeYearBoard().Some?
    ensures WholeYearBoard().value.rows == 7 && WholeYearBoard().value.cols == 9
    ensures Valid(WholeYearBoard().value) && WholeYearBoard().value.labels == WholeYearLabels
    ensures forall x: Cell :: IsFillable(WholeYearBoard().value, x.row, x.col) <==> InLayout(x)
  {
    WholeYearHashCells();
    EveryHashLabelled();
    assert Rectangular(WholeYearShape);
    var b := Create(WholeYearShape, WholeYearLabels).value;
    forall x: Cell ensures IsFillable(b, x.row, x.col) <==> InLayout(x) {
      assert HasCharAt(WholeYearShape, '#', x) <==> InLayout(x);
    }
  }

  /** Every '#' of the template has a label. */
  lemma EveryHashLabelled()
    ensures forall x :: !MissingLabel(WholeYearShape, WholeYearLabels, x)
  {
    WholeYearHashCells();
    forall x ensures !MissingLabel(WholeYearShape, WholeYearLabels, x) {
      if InLayout(x) {
        WholeYearCover(x);
        if x.row <= 1 { WholeYearMonths(6 * x.row + x.col); } else { WholeYearDays(LayoutDay(x)); }
      }
    }
  }

  /** The whole-year board has 43 fillable cells: 12 months and 31 days. */
  lemma WholeYearFillableCount()
    ensures WholeYearBoard().Some?
    ensures |AllFillableCells(WholeYearBoard().value)| == 43
  {
    WholeYearBoardBuilt();
    FillableCellsArePositions(WholeYearShape, WholeYearLabels);
    HashCount(WholeYearShape);
  }

  /** The template has 43 '#' characters, counted row by row from the bottom.
      The grid is a parameter so that the counting does not unfold the constant. */
  lemma HashCount(g: seq<string>)
    requires g == WholeYearShape
    ensures |Positions(g, '#')| == 43
  {
    RowHashCounts(g);
    PositionsFromCons(g, 6); PositionsFromCons(g, 5); PositionsFromCons(g, 4); PositionsFromCons(g, 3);
    PositionsFromCons(g, 2); PositionsFromCons(g, 1); PositionsFromCons(g, 0);
  }

  /** The number of '#' characters in each template row: 6, 6, 7, 7, 7, 7 and 3. */
  lemma RowHashCounts(g: seq<string>)
    requires g == WholeYearShape
    ensures |g| == 7
    ensures |RowPositions(g[0], '#', 0, 0)| == 6 && |RowPositions(g[1], '#', 1, 0)| == 6
    ensures |RowPositions(g[2], '#', 2, 0)| == 7 && |RowPositions(g[3], '#', 3, 0)| == 7
    ensures |RowPositions(g[4], '#', 4, 0)| == 7 && |RowPositions(g[5], '#', 5, 0)| == 7
    ensures |RowPositions(g[6], '#', 6, 0)| == 3
  {
    LayoutRow0(); LayoutRow1(); LayoutRow2(); LayoutRow3(); LayoutRow4(); LayoutRow5(); LayoutRow6();
  }

  /** Row r's positions come before those of the rows below it. */
  lemma PositionsFromCons(g: seq<string>, r: nat)
    requires r < |g|
    ensures |PositionsFrom(g, '#', r)| == |RowPositions(g[r], '#', r, 0)| + |PositionsFrom(g, '#', r + 1)|
  {
  }

  /** A board with the whole-year labels whose fillable cells are the layout:
      the freshly built board, and any board `reset` returns to it. */
  ghost predicate LayoutBoard(b: Board) {
    b.labels == WholeYearLabels && forall x: Cell :: IsFillable(b, x.row, x.col) <==> InLayout(x)
  }

  /** The label search finds day `d` at `DayCell(d)`. */
  lemma FindDay(b: Board, d: int)
    requires LayoutBoard(b) && 1 <= d <= 31
    ensures FindCellByLabel(b, Some(IntToString(d))) == Some(DayCell(d))
  {
    WholeYearDays(d);
    assert IsFillable(b, DayCell(d).row, DayCell(d).col);
    match FindCellByLabel(b, Some(IntToString(d)))
    case None =>
    case Some(x) => WholeYearLabelsUnique(x, DayCell(d));
  }

  /** The label search finds month `m` at `MonthCell(m)`. */
  lemma FindMonth(b: Board, m: int)
    requires LayoutBoard(b) && 1 <= m <= 12
    ensures FindCellByLabel(b, Some(MonthLabels[m - 1])) == Some(MonthCell(m))
  {
    WholeYearMonths(m);
    assert IsFillable(b, MonthCell(m).row, MonthCell(m).col);
    match FindCellByLabel(b, Some(MonthLabels[m - 1]))
    case None =>
    case Some(x) => WholeYearLabelsUnique(x, MonthCell(m));
  }

  /** No cell carries a day number outside 1..31. */
  lemma FindNoSuchDay(b: Board, d: int)
    requires LayoutBoard(b) && !(1 <= d <= 31)
    ensures FindCellByLabel(b, Some(IntToString(d))) == None
  {
    match FindCellByLabel(b, Some(IntToString(d)))
    case None =>
    case Some(x) =>
      NoSuchDayAt(d, x);
      assert false;
  }

  /** No layout cell is labelled with a day number outside 1..31. */
  lemma NoSuchDayAt(d: int, x: Cell)
    requires InLayout(x) && !(1 <= d <= 31)
    ensures LabelIn(WholeYearLabels, x) != Some(IntToString(d))
  {
    if x.row <= 1 {
      MonthRowHasNoDay(d, x);
    } else {
      DayRowsHaveOnlyTheirDay(d, x);
    }
  }

  lemma MonthRowHasNoDay(d: int, x: Cell)
    requires InLayout(x) && x.row <= 1
    ensures LabelIn(WholeYearLabels, x) != Some(IntToString(d))
  {
    WholeYearCover(x);
    WholeYearMonths(6 * x.row + x.col);
    DayIsNotMonth(d, 6 * x.row + x.col);
  }

  lemma DayRowsHaveOnlyTheirDay(d: int, x: Cell)
    requires InLayout(x) && 2 <= x.row && !(1 <= d <= 31)
    ensures LabelIn(WholeYearLabels, x) != Some(IntToString(d))
  {
    WholeYearCover(x);
    WholeYearDays(LayoutDay(x));
    IntToStringInjective(d, LayoutDay(x));
  }

  /** The freshly built whole-year board is a layout board. */
  lemma WholeYearIsLayoutBoard()
    ensures WholeYearBoard().Some? && LayoutBoard(WholeYearBoard().value)
  {
    WholeYearBoardBuilt();
  }

  // ---- piece catalogues ------------------------------------------------

  /** A catalogue entry: the piece id and its ASCII template. */
  datatype Template = Template(id: string, rows: seq<string>)

  /** The templates of `loadAllPieces()`, in catalogue order. */
  const AllTemplates: seq<Template> := [
    Template("L_small", ["#.", "#.", "##"]),
    Template("L_big", ["#.", "#.", "#.", "##"]),
    Template("S1", ["##", "##"]),
    Template("T1", [".#.", "###", "..."]),
    Template("Lightning", [".##", "##."]),
    Template("Bridge", ["###", "#.#"]),
    Template("LightningBig", [".##", ".#.", "##."]),
    Template("SquarePlus", [".#", "##", "##"]),
    Template("Cross", [".#.", "###", ".#."])]

  /** The templates of `loadSimplePieces()`. */
  const SimpleTemplates: seq<Template> := [
    Template("Square", ["##", "##"]),
    Template("|", ["#."])]

  /** The constructor's result for each template, in order. */
  function Built(ts: seq<Template>): (rs: seq<Result<Piece, PieceError>>)
    ensures |rs| == |ts| && forall i :: 0 <= i < |ts| ==> rs[i] == Make(ts[i].id, ts[i].rows)
  {
    seq(|ts|, i requires 0 <= i < |ts| => Make(ts[i].id, ts[i].rows))
  }

  /** All the values of a list of results in order, or the first error. */
  function Collect<T, E>(rs: seq<Result<T, E>>): (res: Result<seq<T>, E>)
    ensures res.Ok? <==> forall i :: 0 <= i < |rs| ==> rs[i].Ok?
    ensures res.Ok? ==> |res.value| == |rs| && forall i :: 0 <= i < |rs| ==> rs[i] == Ok(res.value[i])
    ensures res.Err? ==>
      exists i :: 0 <= i < |rs| && rs[i] == Err(res.error) && forall k :: 0 <= k < i ==> rs[k].Ok?
  {
    if |rs| == 0 then Ok([])
    else match rs[0]
      case Err(e) => Err(e)
      case Ok(v) =>
        var rest := rs[1..];
        assert forall i :: 0 < i < |rs| ==> rest[i - 1] == rs[i];
        match Collect(rest)
        case Err(e) =>
          assert exists i :: 0 < i < |rs| && rs[i] == Err(e) && forall k :: 0 <= k < i ==> rs[k].Ok? by {
            var j :| 0 <= j < |rest| && rest[j] == Err(e) && forall k :: 0 <= k < j ==> rest[k].Ok?;
            assert forall k :: 0 < k < j + 1 ==> rs[k] == rest[k - 1];
          }
          Err(e)
        case Ok(vs) =>
          assert forall i :: 0 < i < |rs| ==> ([v] + vs)[i] == vs[i - 1];
          Ok([v] + vs)
  }

  /** Build every template in order; the first constructor failure propagates. */
  function MakeAll(ts: seq<Template>): (res: Result<seq<Piece>, PieceError>)
    ensures res.Ok? <==> forall i :: 0 <= i < |ts| ==> Make(ts[i].id, ts[i].rows).Ok?
    ensures res.Ok? ==> |res.value| == |ts|
    ensures res.Ok? ==> forall i :: 0 <= i < |ts| ==> Make(ts[i].id, ts[i].rows) == Ok(res.value[i])
    ensures res.Err? ==>
      exists i :: 0 <= i < |ts| && Make(ts[i].id, ts[i].rows) == Err(res.error)
                  && forall k :: 0 <= k < i ==> Make(ts[k].id, ts[k].rows).Ok?
  {
    Collect(Built(ts))
  }

  /** When every template builds, the catalogue is exactly the built pieces. */
  lemma MakeAllOf(ts: seq<Template>, ps: seq<Piece>)
    requires |ts| == |ps|
    requires forall i :: 0 <= i < |ts| ==> Make(ts[i].id, ts[i].rows) == Ok(ps[i])
    ensures MakeAll(ts) == Ok(ps)
  {
    assert MakeAll(ts).Ok?;
    assert MakeAll(ts).value == ps;
  }

  /** Java `loadAllPieces()`. */
  function LoadAllPieces(): Result<seq<Piece>, PieceError> {
    MakeAll(AllTemplates)
  }

  /** Java `loadSimplePieces()`. */
  function LoadSimplePieces(): Result<seq<Piece>, PieceError> {
    MakeAll(SimpleTemplates)
  }

  /** A template whose '#' list is `cells`, bounded by an h x w box it touches on
      every side, becomes exactly the piece (id, cells, h, w). The four indices
      name the cells on the top, left, bottom and right edges. */
  lemma TemplateYields(t: Template, cells: seq<Cell>, h: int, w: int, top: nat, left: nat, bottom: nat, right: nat)
    requires RectangularTemplate(t.rows) && Positions(t.rows, '#') == cells
    requires top < |cells| && left < |cells| && bottom < |cells| && right < |cells|
    requires cells[top].row == 0 && cells[left].col == 0 && cells[bottom].row == h - 1 && cells[right].col == w - 1
    requires forall n :: 0 <= n < |cells| ==> 0 <= cells[n].row < h && 0 <= cells[n].col < w
    ensures Make(t.id, t.rows) == Ok(Piece(t.id, cells, h, w))
  {
    RawCellsArePositions(t.rows);
    NormalizedByBounds(cells, top, left);
    MaxRowIs(cells, bottom, h - 1);
    MaxColIs(cells, right, w - 1);
    CanonicalOfNormalized(t.rows);
    assert cells[top] in RawCells(t.rows);
    var res := Make(t.id, t.rows);
    assert res.Ok?;
    assert res.value.canonical == cells;
    assert Tight(cells, res.value.height, res.value.width);
    assert res.value.height == h && res.value.width == w && res.value.id == t.id;
    assert res.value == Piece(t.id, cells, h, w);
  }

  /** The nine pieces of the full catalogue, as normalisation leaves them. */
  const AllPieces: seq<Piece> := [
    Piece("L_small", [Cell(0, 0), Cell(1, 0), Cell(2, 0), Cell(2, 1)], 3, 2),
    Piece("L_big", [Cell(0, 0), Cell(1, 0), Cell(2, 0), Cell(3, 0), Cell(3, 1)], 4, 2),
    Piece("S1", [Cell(0, 0), Cell(0, 1), Cell(1, 0), Cell(1, 1)], 2, 2),
    Piece("T1", [Cell(0, 1), Cell(1, 0), Cell(1, 1), Cell(1, 2)], 2, 3),
    Piece("Lightning", [Cell(0, 1), Cell(0, 2), Cell(1, 0), Cell(1, 1)], 2, 3),
    Piece("Bridge", [Cell(0, 0), Cell(0, 1), Cell(0, 2), Cell(1, 0), Cell(1, 2)], 2, 3),
    Piece("LightningBig", [Cell(0, 1), Cell(0, 2), Cell(1, 1), Cell(2, 0), Cell(2, 1)], 3, 3),
    Piece("SquarePlus", [Cell(0, 1), Cell(1, 0), Cell(1, 1), Cell(2, 0), Cell(2, 1)], 3, 2),
    Piece("Cross", [Cell(0, 1), Cell(1, 0), Cell(1, 1), Cell(1, 2), Cell(2, 1)], 3, 3)]

  /** The two pieces of the small catalogue. */
  const SimplePieces: seq<Piece> := [
    Piece("Square", [Cell(0, 0), Cell(0, 1), Cell(1, 0), Cell(1, 1)], 2, 2),
    Piece("|", [Cell(0, 0)], 1, 1)]

  lemma BuildsLSmall()
    ensures Make(AllTemplates[0].id, AllTemplates[0].rows) == Ok(AllPieces[0])
  {
    TemplateYields(AllTemplates[0], [Cell(0, 0), Cell(1, 0), Cell(2, 0), Cell(2, 1)], 3, 2, 0, 0, 2, 3);
  }

  lemma BuildsLBig()
    ensures Make(AllTemplates[1].id, AllTemplates[1].rows) == Ok(AllPieces[1])
  {
    TemplateYields(AllTemplates[1], [Cell(0, 0), Cell(1, 0), Cell(2, 0), Cell(3, 0), Cell(3, 1)], 4, 2, 0, 0, 3, 4);
  }

  lemma BuildsS1()
    ensures Make(AllTemplates[2].id, AllTemplates[2].rows) == Ok(AllPieces[2])
  {
    TemplateYields(AllTemplates[2], [Cell(0, 0), Cell(0, 1), Cell(1, 0), Cell(1, 1)], 2, 2, 0, 0, 2, 1);
  }

  lemma BuildsT1()
    ensures Make(AllTemplates[3].id, AllTemplates[3].rows) == Ok(AllPieces[3])
  {
    TemplateYields(AllTemplates[3], [Cell(0, 1), Cell(1, 0), Cell(1, 1), Cell(1, 2)], 2, 3, 0, 1, 1, 3);
  }

  lemma BuildsLightning()
    ensures Make(AllTemplates[4].id, AllTemplates[4].rows) == Ok(AllPieces[4])
  {
    TemplateYields(AllTemplates[4], [Cell(0, 1), Cell(0, 2), Cell(1, 0), Cell(1, 1)], 2, 3, 0, 2, 2, 1);
  }

  lemma BuildsBridge()
    ensures Make(AllTemplates[5].id, AllTemplates[5].rows) == Ok(AllPieces[5])
  {
    TemplateYields(AllTemplates[5], [Cell(0, 0), Cell(0, 1), Cell(0, 2), Cell(1, 0), Cell(1, 2)], 2, 3, 0, 0, 3, 2);
  }

  lemma BuildsLightningBig()
    ensures Make(AllTemplates[6].id, AllTemplates[6].rows) == Ok(AllPieces[6])
  {
    TemplateYields(AllTemplates[6], [Cell(0, 1), Cell(0, 2), Cell(1, 1), Cell(2, 0), Cell(2, 1)], 3, 3, 0, 3, 3, 1);
  }

  lemma BuildsSquarePlus()
    ensures Make(AllTemplates[7].id, AllTemplates[7].rows) == Ok(AllPieces[7])
  {
    TemplateYields(AllTemplates[7], [Cell(0, 1), Cell(1, 0), Cell(1, 1), Cell(2, 0), Cell(2, 1)], 3, 2, 0, 1, 3, 0);
  }

  lemma BuildsCross()
    ensures Make(AllTemplates[8].id, AllTemplates[8].rows) == Ok(AllPieces[8])
  {
    TemplateYields(AllTemplates[8], [Cell(0, 1), Cell(1, 0), Cell(1, 1), Cell(1, 2), Cell(2, 1)], 3, 3, 0, 1, 4, 3);
  }

  lemma AllTemplatesYield(i: nat)
    requires i < |AllTemplates|
    ensures Make(AllTemplates[i].id, AllTemplates[i].rows) == Ok(AllPieces[i])
  {
    if i == 0 { BuildsLSmall(); }
    else if i == 1 { BuildsLBig(); }
    else if i == 2 { BuildsS1(); }
    else if i == 3 { BuildsT1(); }
    else if i == 4 { BuildsLightning(); }
    else if i == 5 { BuildsBridge(); }
    else if i == 6 { BuildsLightningBig(); }
    else if i == 7 { BuildsSquarePlus(); }
    else { BuildsCross(); }
  }

  lemma BuildsSquare()
    ensures Make(SimpleTemplates[0].id, SimpleTemplates[0].rows) == Ok(SimplePieces[0])
  {
    TemplateYields(SimpleTemplates[0], [Cell(0, 0), Cell(0, 1), Cell(1, 0), Cell(1, 1)], 2, 2, 0, 0, 2, 1);
  }

  lemma BuildsBar()
    ensures Make(SimpleTemplates[1].id, SimpleTemplates[1].rows) == Ok(SimplePieces[1])
  {
    TemplateYields(SimpleTemplates[1], [Cell(0, 0)], 1, 1, 0, 0, 0, 0);
  }

  lemma SimpleTemplatesYield(i: nat)
    requires i < |SimpleTemplates|
    ensures Make(SimpleTemplates[i].id, SimpleTemplates[i].rows) == Ok(SimplePieces[i])
  {
    if i == 0 { BuildsSquare(); }
    else { BuildsBar(); }
  }

  /** `loadAllPieces()` never throws and yields exactly the nine normalised pieces. */
  lemma LoadAllPiecesValue()
    ensures LoadAllPieces() == Ok(AllPieces)
  {
    forall i | 0 <= i < |AllTemplates| ensures Make(AllTemplates[i].id, AllTemplates[i].rows) == Ok(AllPieces[i]) {
      AllTemplatesYield(i);
    }
    MakeAllOf(AllTemplates, AllPieces);
  }

  /** `loadSimplePieces()` yields a 2 x 2 square and a single cell: the blank
      column of the "|" template does not count towards its width. */
  lemma LoadSimplePiecesValue()
    ensures LoadSimplePieces() == Ok(SimplePieces)
  {
    forall i | 0 <= i < |SimpleTemplates| ensures Make(SimpleTemplates[i].id, SimpleTemplates[i].rows) == Ok(SimplePieces[i]) {
      SimpleTemplatesYield(i);
    }
    MakeAllOf(SimpleTemplates, SimplePieces);
  }

  /** The cell count of each piece, in catalogue order. */
  function Sizes(ps: seq<Piece>): (ns: seq<nat>)
    ensures |ns| == |ps|
    ensures forall i :: 0 <= i < |ps| ==> ns[i] == |ps[i].canonical|
  {
    seq(|ps|, i requires 0 <= i < |ps| => |ps[i].canonical|)
  }

  function Sum(ns: seq<nat>): nat {
    if |ns| == 0 then 0 else ns[0] + Sum(ns[1..])
  }

  /** The full catalogue (`LoadAllPiecesValue` shows it is what `loadAllPieces()`
      builds) has nine pieces with distinct ids. */
  lemma AllPieceIdsDistinct()
    ensures |AllPieces| == 9
    ensures forall i, j :: 0 <= i < j < 9 ==> AllPieces[i].id != AllPieces[j].id
  {
  }

  /** The pieces have 4, 5, 4, 4, 4, 5, 5, 5 and 5 cells: 41 in all. */
  lemma AllPieceSizes()
    ensures Sizes(AllPieces) == [4, 5, 4, 4, 4, 5, 5, 5, 5]
    ensures Sum(Sizes(AllPieces)) == 41
  {
    AllPieceSizeList();
    NineSizesSum();
  }

  lemma AllPieceSizeList()
    ensures Sizes(AllPieces) == [4, 5, 4, 4, 4, 5, 5, 5, 5]
  {
    var ps := AllPieces;
    assert |ps[0].canonical| == 4 && |ps[1].canonical| == 5 && |ps[2].canonical| == 4;
    assert |ps[3].canonical| == 4 && |ps[4].canonical| == 4 && |ps[5].canonical| == 5;
    assert |ps[6].canonical| == 5 && |ps[7].canonical| == 5 && |ps[8].canonical| == 5;
  }

  lemma NineSizesSum()
    ensures Sum([4, 5, 4, 4, 4, 5, 5, 5, 5]) == 41
  {
    assert Sum([5]) == 5;
    assert Sum([5, 5, 5, 5]) == 20;
    assert Sum([4, 4, 5, 5, 5, 5]) == 28;
  }

  /** The catalogue covers the board except for one month and one day cell. */
  lemma CatalogueFitsBoard()
    ensures WholeYearBoard().Some?
    ensures Sum(Sizes(AllPieces)) + 2 == |AllFillableCells(WholeYearBoard().value)|
  {
    WholeYearBoardBuilt();
    WholeYearFillableCount();
    AllPieceSizes();
  }

  /** The T1 template's blank third row does not count: the piece is two rows high. */
  lemma T1IsTwoRowsHigh()
    ensures AllPieces[3].id == "T1" && AllPieces[3].height == 2 && AllPieces[3].width == 3
  {
  }

  /** The small catalogue (`LoadSimplePiecesValue`): a 2 x 2 square and a single
      cell, whose blank template column does not count towards its width. */
  lemma SimplePiecesFacts()
    ensures |SimplePieces| == 2 && SimplePieces[0].id == "Square" && SimplePieces[1].id == "|"
    ensures Sizes(SimplePieces) == [4, 1]
    ensures SimplePieces[0].height == 2 && SimplePieces[0].width == 2
    ensures SimplePieces[1].height == 1 && SimplePieces[1].width == 1
  {
    assert Sizes(SimplePieces) == [4, 1];
  }
}
